/** A fragment emitted from the registry, read back as a settings file, gives what was emitted. */
module SettingsRoundTrip {
  import opened Basics
  import opened SettingsValues
  import opened SettingsSchema
  import opened SettingsLoad
  import opened SettingsPaths
  import opened SettingsLayers
  import opened SettingsRegistry
  import opened SettingsSound

  /** `path` is where the file's schema stores one key, and `v` a value that key takes there. */
  ghost predicate Storable(src: Source, k: KeySpec, path: Path, v: Value)
  {
    var keys := KeysOf(src.schema.keys, src.file);
    && path != []
    && FindKey(keys, path) == Some(k)
    && Admits(src.scope, k.scope)
    && k.accepts(v)
    && (forall i | 0 < i < |path| :: FindKey(keys, path[..i]).None?)
    && SectionTakes(src, k, path, v)
    && ClearOfRetired(RetiredIn(src), path)
  }

  /** No retired key is at the path, above it or below it. */
  ghost predicate ClearOfRetired(retired: seq<string>, path: Path)
    requires path != []
  {
    forall i | 0 <= i < |retired| && RetiredPath(retired[i], path[0]).Some? ::
      !Related(path[1..], RetiredPath(retired[i], path[0]).value)
  }

  /** The section that owns the top-level key takes it: in a per-entry section the entry has an
      allowed name, or the whole value is a list whose items the key takes one by one. */
  ghost predicate SectionTakes(src: Source, k: KeySpec, path: Path, v: Value)
    requires path != []
  {
    && Owner(src, Text(path[0])).Some?
    && var sec := Owner(src, Text(path[0])).value;
    sec.perEntry ==>
      if |path| > 1 then NameAllowed(sec, Text(path[1]))
      else !v.Mapping? && (v.Sequence? ==> forall item | item in v.items :: k.accepts(Sequence([item])))
  }

  /** What is stored: settings at unrelated paths, each storable under its key. */
  ghost predicate Stored(src: Source, list: seq<Setting>, owners: seq<KeySpec>)
  {
    && |owners| == |list|
    && PrefixFree(list)
    && (forall i | 0 <= i < |list| :: Storable(src, owners[i], list[i].path, list[i].value))
    && (forall s | s in list :: s.path != [])
  }

  // ----- the shape of a fragment -----

  lemma {:induction false} SetInKeys(root: map<Key, Value>, path: Path, v: Value, q: Path)
    requires path != [] && q < path
    ensures TextAt(Mapping(SetIn(root, path, v)), q).Some? && TextAt(Mapping(SetIn(root, path, v)), q).value.Mapping?
    ensures forall key | key in TextAt(Mapping(SetIn(root, path, v)), q).value.m ::
              key.Text? || (TextAt(Mapping(root), q).Some? && TextAt(Mapping(root), q).value.Mapping?
                            && key in TextAt(Mapping(root), q).value.m)
    decreases |path|
  {
    if q != [] {
      var k := Text(path[0]);
      var below := if k in root && root[k].Mapping? then root[k].m else map[];
      SetInKeys(below, path[1..], v, q[1..]);
      if !(k in root && root[k].Mapping?) && q[1..] == [] {
        assert TextAt(Mapping(below), q[1..]) == Some(Mapping(map[]));
      }
    }
  }

  /** Above the stored values every key of a fragment is text. */
  lemma {:induction false} FragmentKeysText(list: seq<Setting>, q: Path, key: Key)
    requires forall s | s in list :: s.path != [] && !(s.path <= q)
    requires TextAt(Mapping(SetAll(map[], list)), q).Some?
    requires TextAt(Mapping(SetAll(map[], list)), q).value.Mapping?
    requires key in TextAt(Mapping(SetAll(map[], list)), q).value.m
    ensures key.Text?
  {
    if list != [] {
      var last, before := list[|list| - 1], list[..|list| - 1];
      var root := SetAll(map[], before);
      assert last in list;
      if q < last.path {
        SetInKeys(root, last.path, last.value, q);
      } else {
        assert !Related(last.path, q);
        SetInElsewhere(root, last.path, last.value, q);
      }
      if !key.Text? {
        FragmentKeysText(before, q, key);
      }
    }
  }

  /** What a fragment holds at a path leads to, or comes from, a stored setting. */
  lemma {:induction false} FragmentReaches(list: seq<Setting>, q: Path) returns (i: nat)
    requires (forall s | s in list :: s.path != []) && q != []
    requires TextAt(Mapping(SetAll(map[], list)), q).Some?
    ensures i < |list| && Related(list[i].path, q)
  {
    if forall s | s in list :: !Related(s.path, q) {
      SetAllElsewhere(map[], list, q);
      assert false;
    }
    i :| 0 <= i < |list| && Related(list[i].path, q);
  }

  lemma {:induction false} LeadsToStored(src: Source, list: seq<Setting>, owners: seq<KeySpec>, i: nat, q: Path)
    requires Stored(src, list, owners) && i < |list| && q < list[i].path && q != []
    ensures var keys := KeysOf(src.schema.keys, src.file);
            FindKey(keys, q).None? && Deeper(keys, q)
  {
    var keys := KeysOf(src.schema.keys, src.file);
    var path := list[i].path;
    assert q == path[..|q|];
    var at :| 0 <= at < |keys| && keys[at] == owners[i];
    assert TakesPath(keys[at], path);
    assert forall j | 0 <= j < |q| :: SegmentFits(keys[at].path[j], path[j], keys[at].starInstance);
    assert LeadsOn(keys[at], q);
  }

  /** Everything from a stored path up to its top-level key passes the schema. */
  lemma {:induction false} FragmentPasses(src: Source, list: seq<Setting>, owners: seq<KeySpec>, i: nat, q: Path,
                                          v: Value)
    requires Stored(src, list, owners) && i < |list| && q != [] && q <= list[i].path
    requires TextAt(Mapping(SetAll(map[], list)), q) == Some(v)
    ensures Passes(KeysOf(src.schema.keys, src.file), src.scope, q, v)
    decreases v
  {
    var keys := KeysOf(src.schema.keys, src.file);
    var root := Mapping(SetAll(map[], list));
    SetAllAt(map[], list, i);
    if q == list[i].path {
      assert v == list[i].value;
    } else {
      LeadsToStored(src, list, owners, i, q);
      AboveIsMapping(root, list[i].path, q);
      NothingAbove(list, i, q);
      forall key | key in v.m
        ensures key.Text? && Passes(keys, src.scope, q + [key.s], v.m[key])
      {
        FragmentKeysText(list, q, key);
        TextAtConcat(root, q, [key.s]);
        assert [key.s][1..] == [];
        assert TextAt(v, [key.s]) == Some(v.m[key]);
        var j := FragmentReaches(list, q + [key.s]);
        BelowIsLonger(list, i, q, j, key.s);
        FragmentPasses(src, list, owners, j, q + [key.s], v.m[key]);
      }
    }
  }

  /** No stored path is at or above a path that leads to another. */
  lemma {:induction false} NothingAbove(list: seq<Setting>, i: nat, q: Path)
    requires PrefixFree(list) && i < |list| && q < list[i].path
    ensures forall s | s in list :: !(s.path <= q)
  {
    forall s | s in list ensures !(s.path <= q) {
      var j :| 0 <= j < |list| && list[j] == s;
      assert j != i ==> !Related(list[j].path, list[i].path);
    }
  }

  lemma {:induction false} BelowIsLonger(list: seq<Setting>, i: nat, q: Path, j: nat, seg: string)
    requires PrefixFree(list) && i < |list| && j < |list| && q < list[i].path && Related(list[j].path, q + [seg])
    ensures q + [seg] <= list[j].path
  {
    NothingAbove(list, i, q);
    assert list[j] in list;
    var p, r := list[j].path, q + [seg];
    assert p <= r && |p| < |r| ==> p <= q;
  }

  // ----- reading it back -----

  lemma {:induction false} FragmentTop(src: Source, list: seq<Setting>, owners: seq<KeySpec>, key: Key) returns (i: nat)
    requires Stored(src, list, owners) && key in SetAll(map[], list)
    ensures key.Text? && i < |list| && [key.s] <= list[i].path
    ensures Owner(src, key).Some?
  {
    var root := Mapping(SetAll(map[], list));
    FragmentKeysText(list, [], key);
    assert [key.s][1..] == [];
    assert TextAt(root, [key.s]) == Some(root.m[key]);
    i := FragmentReaches(list, [key.s]);
    assert list[i].path[0] == key.s;
    assert Storable(src, owners[i], list[i].path, list[i].value);
  }

  lemma {:induction false} RelatedBelow(p: Path, q: Path)
    requires p != [] && q != [] && Related(p, q)
    ensures p[0] == q[0] && Related(p[1..], q[1..])
  {
  }

  lemma {:induction false} FragmentNotRetired(src: Source, list: seq<Setting>, owners: seq<KeySpec>, key: Key)
    requires Stored(src, list, owners) && key in SetAll(map[], list) && key.Text?
    ensures StripRetired(RetiredIn(src), key.s, SetAll(map[], list)[key]) == SetAll(map[], list)[key]
    ensures !HoldsRetired(RetiredIn(src), key.s, SetAll(map[], list)[key])
  {
    var root := Mapping(SetAll(map[], list));
    var retired := RetiredIn(src);
    forall i | 0 <= i < |retired| && RetiredPath(retired[i], key.s).Some?
      ensures TextAt(root.m[key], RetiredPath(retired[i], key.s).value).None?
    {
      var below := RetiredPath(retired[i], key.s).value;
      if TextAt(root.m[key], below).Some? {
        var q := [key.s] + below;
        assert q[1..] == below;
        assert TextAt(root, q) == TextAt(root.m[key], below);
        var j := FragmentReaches(list, q);
        RelatedBelow(list[j].path, q);
        assert false;
      }
    }
    NothingRetired(retired, key.s, root.m[key]);
  }

  /** Each top-level key of a fragment loads as written. */
  lemma {:induction false} FragmentTopLoads(src: Source, list: seq<Setting>, owners: seq<KeySpec>, key: Key)
    requires Stored(src, list, owners) && key in SetAll(map[], list)
    ensures Owner(src, key).Some?
    ensures OutcomeOf(src, SetAll(map[], list), key) == Outcome(SetAll(map[], list)[key], {}, None)
  {
    var root := SetAll(map[], list);
    var i := FragmentTop(src, list, owners, key);
    FragmentNotRetired(src, list, owners, key);
    var v := root[key];
    assert [key.s][1..] == [] && TextAt(Mapping(root), [key.s]) == Some(v);
    var sec := Owner(src, key).value;
    var keys := KeysOf(src.schema.keys, src.file);
    FragmentPasses(src, list, owners, i, [key.s], v);
    if sec.perEntry && v.Mapping? {
      FragmentEntriesLoad(src, list, owners, key, i);
    } else if sec.perEntry && v.Sequence? {
      SetAllAt(map[], list, i);
      if list[i].path != [key.s] {
        AboveIsMapping(Mapping(root), list[i].path, [key.s]);
        assert false;
      }
      assert v == list[i].value && Storable(src, owners[i], [key.s], v);
      ItemsLoad(src, keys, sec, key.s, v.items, owners[i]);
    }
  }

  lemma {:induction false} TwoDown(root: Value, top: string, seg: string, v: Value, x: Value)
    requires root.Mapping? && Text(top) in root.m && v == root.m[Text(top)]
    requires v.Mapping? && Text(seg) in v.m && x == v.m[Text(seg)]
    ensures TextAt(root, [top, seg]) == Some(x)
  {
    var one := [seg];
    assert one[1..] == [] && TextAt(v, one) == TextAt(x, []);
    assert [top, seg][1..] == one;
  }

  lemma {:induction false} FragmentEntry(src: Source, list: seq<Setting>, owners: seq<KeySpec>, key: Key, i: nat,
                                         e: Key)
    requires Stored(src, list, owners) && key in SetAll(map[], list) && key.Text? && Owner(src, key).Some?
    requires Owner(src, key).value.perEntry
    requires i < |list| && [key.s] < list[i].path
    requires SetAll(map[], list)[key].Mapping? && e in SetAll(map[], list)[key].m
    ensures !NameRefused(Owner(src, key).value, e)
    ensures EntryPasses(KeysOf(src.schema.keys, src.file), src.scope, Owner(src, key).value, key.s, e,
                        SetAll(map[], list)[key].m[e])
  {
    var root := Mapping(SetAll(map[], list));
    var v := root.m[key];
    NothingAbove(list, i, [key.s]);
    assert [key.s][1..] == [] && TextAt(root, [key.s]) == Some(v);
    FragmentKeysText(list, [key.s], e);
    var q := [key.s, e.s];
    TwoDown(root, key.s, e.s, v, v.m[e]);
    var j := FragmentReaches(list, q);
    assert q == [key.s] + [e.s];
    BelowIsLonger(list, i, [key.s], j, e.s);
    assert Storable(src, owners[j], list[j].path, list[j].value);
    assert list[j].path[0] == key.s && list[j].path[1] == e.s;
    FragmentPasses(src, list, owners, j, q, v.m[e]);
  }

  lemma {:induction false} FragmentEntriesLoad(src: Source, list: seq<Setting>, owners: seq<KeySpec>, key: Key, i: nat)
    requires Stored(src, list, owners) && key in SetAll(map[], list) && key.Text? && Owner(src, key).Some?
    requires Owner(src, key).value.perEntry && SetAll(map[], list)[key].Mapping?
    requires i < |list| && [key.s] <= list[i].path
    ensures var v := SetAll(map[], list)[key];
            EntriesOutcome(src, KeysOf(src.schema.keys, src.file), Owner(src, key).value, key.s, v.m)
            == Outcome(v, {}, None)
  {
    var root := Mapping(SetAll(map[], list));
    var v := root.m[key];
    var sec, keys := Owner(src, key).value, KeysOf(src.schema.keys, src.file);
    assert [key.s][1..] == [] && TextAt(root, [key.s]) == Some(v);
    SetAllAt(map[], list, i);
    assert Storable(src, owners[i], list[i].path, list[i].value);
    assert key == Text(list[i].path[0]) && SectionTakes(src, owners[i], list[i].path, list[i].value);
    assert list[i].path != [key.s];
    NothingAbove(list, i, [key.s]);
    forall e | e in v.m
      ensures !NameRefused(sec, e) && EntryPasses(keys, src.scope, sec, key.s, e, v.m[e])
    {
      FragmentEntry(src, list, owners, key, i, e);
    }
    AllEntriesKept(src, keys, sec, key.s, v.m);
  }

  lemma {:induction false} AllEntriesKept(src: Source, keys: seq<KeySpec>, sec: SectionSpec, top: string,
                                          m: map<Key, Value>)
    requires forall e | e in m :: !NameRefused(sec, e) && EntryPasses(keys, src.scope, sec, top, e, m[e])
    ensures EntriesOutcome(src, keys, sec, top, m) == Outcome(Mapping(m), {}, None)
  {
    var o := EntriesOutcome(src, keys, sec, top, m);
    assert o.kept.m.Keys == m.Keys;
    assert o.kept.m == m;
    assert o.units == {};
  }

  lemma {:induction false} ItemsLoad(src: Source, keys: seq<KeySpec>, sec: SectionSpec, top: string,
                                     items: seq<Value>, k: KeySpec)
    requires FindKey(keys, [top]) == Some(k) && Admits(src.scope, k.scope)
    requires forall item | item in items :: k.accepts(Sequence([item]))
    ensures ItemsOutcome(src, keys, sec, top, items) == Outcome(Sequence(items), {}, None)
  {
    FragmentItemsLoad(keys, src.scope, top, items, k);
    assert ItemsOutcome(src, keys, sec, top, items).units == {};
  }

  lemma {:induction false} OneItemLoads(keys: seq<KeySpec>, scope: LayerScope, top: string, item: Value, k: KeySpec)
    requires FindKey(keys, [top]) == Some(k) && Admits(scope, k.scope) && k.accepts(Sequence([item]))
    ensures Passes(keys, scope, [top], Sequence([item])) && ItemKept(keys, scope, top, item) == [item]
  {
  }

  lemma {:induction false} FragmentItemsLoad(keys: seq<KeySpec>, scope: LayerScope, top: string, items: seq<Value>,
                                             k: KeySpec)
    requires FindKey(keys, [top]) == Some(k) && Admits(scope, k.scope)
    requires forall item | item in items :: k.accepts(Sequence([item]))
    ensures ItemsKept(keys, scope, top, items) == items
    ensures forall item | item in items :: Passes(keys, scope, [top], Sequence([item]))
  {
    if items != [] {
      var front, last := items[..|items| - 1], items[|items| - 1];
      assert items == front + [last];
      assert forall item | item in front :: item in items;
      FragmentItemsLoad(keys, scope, top, front, k);
      OneItemLoads(keys, scope, top, last, k);
      ItemsKeptLast(keys, scope, top, items, front, last);
    }
  }

  /** Read as a file, the fragment has nothing to report and loads exactly as written. */
  lemma {:induction false} FragmentLoads(src: Source, list: seq<Setting>, owners: seq<KeySpec>)
    requires Stored(src, list, owners)
    ensures Clean(src, SetAll(map[], list), None)
    ensures Accepted(src, SetAll(map[], list), None) == SetAll(map[], list)
  {
    var root := SetAll(map[], list);
    forall key | key in root
      ensures Owner(src, key).Some? && key.Text?
      ensures OutcomeOf(src, root, key) == Outcome(root[key], {}, None)
      ensures !HoldsRetired(RetiredIn(src), key.s, root[key])
    {
      FragmentTopLoads(src, list, owners, key);
      FragmentNotRetired(src, list, owners, key);
    }
    assert Failed(src, root, None) == {};
    assert Accepted(src, root, None).Keys == root.Keys;
  }

  /** The keys of the settings `Emitted` lists, in the same order. */
  function Owners(list: seq<Bound>, layers: Option<seq<Layer>>, file: string): (out: seq<Bound>)
    ensures |out| == |Emitted(list, layers, file)|
    ensures forall i | 0 <= i < |out| ::
              && out[i] in list && out[i].k.file == file && ValueOf(out[i], layers).Some?
              && Emitted(list, layers, file)[i] == Setting(PathOf(out[i]), ValueOf(out[i], layers).value)
  {
    if list == [] then []
    else
      var last := list[|list| - 1];
      Owners(list[..|list| - 1], layers, file)
        + (if last.k.file == file && ValueOf(last, layers).Some? then [last] else [])
  }

  // ----- what the registry emits is storable -----

  /** The key takes what is emitted for it at `path`: nothing here looks at another key. */
  ghost predicate Takes(src: Source, k: KeySpec, path: Path, v: Value)
  {
    && TakesPath(k, path) && Admits(src.scope, k.scope) && k.accepts(v)
    && path != [] && SectionTakes(src, k, path, v)
    && ClearOfRetired(RetiredIn(src), path)
  }

  /** The file's keys are those of one component. */
  ghost predicate OwnsFile(src: Source, keys: seq<KeySpec>)
  {
    KeysOf(src.schema.keys, src.file) == KeysOf(keys, src.file)
  }

  lemma {:induction false} TakenIsStorable(src: Source, keys: seq<KeySpec>, k: KeySpec, path: Path, v: Value)
    requires KeysApart(keys) && OwnsFile(src, keys) && k in keys && k.computed.None? && k.file == src.file
    requires Takes(src, k, path, v)
    ensures Storable(src, k, path, v)
  {
    KeysOfHold(keys, k);
    FoundAlone(KeysOf(keys, src.file), k, path);
  }

  /** Emit then load is the identity: what the registry emits under a prefix, read back as the one layer of
      its file, gives no finding, and every emitted key resolves to exactly the value it was emitted with. */
  lemma {:induction false} EmitThenLoad(keys: seq<KeySpec>, prefix: string, layers: Option<seq<Layer>>,
                                        order: map<Key, Value> -> seq<Key>, list: seq<Bound>,
                                        files: map<string, Value>, src: Source)
    requires Lists(order) && KeysApart(keys) && OwnsFile(src, keys)
    requires list == Concrete(keys, prefix, Given(layers), order) && Fragments(list, layers, files) && src.file in files
    requires forall b | b in list && b.k.file == src.file && ValueOf(b, layers).Some? ::
               Takes(src, b.k, PathOf(b), ValueOf(b, layers).value)
    ensures HavePaths(KeysOf(src.schema.keys, src.file))
    ensures files[src.file].Mapping? && Clean(src, files[src.file].m, None)
    ensures forall b | b in list && b.k.file == src.file && ValueOf(b, layers).Some? ::
              Effective(b.k, b.bound, [LayerOf(src, Some(files[src.file]))]) == ValueOf(b, layers)
  {
    ConcreteEmittable(keys, prefix, Given(layers), order, layers);
    forall b | b in list ensures b.k in keys { ConcreteHolds(keys, prefix, Given(layers), order, b); }
    forall b | b in list && b.k.file == src.file && ValueOf(b, layers).Some?
      ensures Storable(src, b.k, PathOf(b), ValueOf(b, layers).value)
    {
      TakenIsStorable(src, keys, b.k, PathOf(b), ValueOf(b, layers).value);
    }
    assert HavePaths(KeysOf(keys, src.file)) by {
      forall i | 0 <= i < |KeysOf(keys, src.file)| ensures KeysOf(keys, src.file)[i].path != [] {
        assert KeysOf(keys, src.file)[i] in KeysOf(keys, src.file);
      }
    }
    ListThenLoad(list, layers, files, src);
  }

  lemma {:induction false} EmittedStored(list: seq<Bound>, layers: Option<seq<Layer>>, src: Source,
                                         owners: seq<KeySpec>)
    requires Emittable(list, layers)
    requires forall b | b in list && b.k.file == src.file && ValueOf(b, layers).Some? ::
               Storable(src, b.k, PathOf(b), ValueOf(b, layers).value)
    requires var from := Owners(list, layers, src.file);
             |owners| == |from| && forall i | 0 <= i < |from| :: owners[i] == from[i].k
    ensures Stored(src, Emitted(list, layers, src.file), owners)
  {
    EmittedPaths(list, layers, src.file);
  }

  lemma {:induction false} ListThenLoad(list: seq<Bound>, layers: Option<seq<Layer>>, files: map<string, Value>,
                                        src: Source)
    requires Emittable(list, layers) && Fragments(list, layers, files) && src.file in files
    requires HavePaths(KeysOf(src.schema.keys, src.file))
    requires forall b | b in list && b.k.file == src.file && ValueOf(b, layers).Some? ::
               Storable(src, b.k, PathOf(b), ValueOf(b, layers).value)
    ensures files[src.file].Mapping? && Clean(src, files[src.file].m, None)
    ensures forall b | b in list && b.k.file == src.file && ValueOf(b, layers).Some? ::
              Effective(b.k, b.bound, [LayerOf(src, Some(files[src.file]))]) == ValueOf(b, layers)
  {
    var settings := Emitted(list, layers, src.file);
    var from := Owners(list, layers, src.file);
    var owners := seq(|from|, i requires 0 <= i < |from| => from[i].k);
    assert FragmentOf(settings, files, src.file);
    EmittedStored(list, layers, src, owners);
    FragmentLoads(src, settings, owners);
    forall b | b in list && b.k.file == src.file && ValueOf(b, layers).Some?
      ensures Effective(b.k, b.bound, [LayerOf(src, Some(files[src.file]))]) == ValueOf(b, layers)
    {
      EmittedResolves(list, layers, src, settings, b, LayerOf(src, Some(files[src.file])));
    }
  }

  lemma {:induction false} EmittedResolves(list: seq<Bound>, layers: Option<seq<Layer>>, src: Source,
                                           settings: seq<Setting>, b: Bound, layer: Layer)
    requires b in list && ValueOf(b, layers).Some? && settings == Emitted(list, layers, b.k.file)
    requires PrefixFree(settings) && (forall s | s in settings :: s.path != [])
    requires layer.file == b.k.file && layer.scope == src.scope && layer.accepted == SetAll(map[], settings)
    requires Storable(src, b.k, PathOf(b), ValueOf(b, layers).value)
    ensures Effective(b.k, b.bound, [layer]) == ValueOf(b, layers)
  {
    var i := EmittedHas(list, layers, b);
    LayerReads(b.k, b.bound, layer, settings, i, ValueOf(b, layers).value);
  }

  /** A key set in the one layer there is resolves to what it was set to. */
  lemma {:induction false} LayerReads(k: KeySpec, bound: seq<string>, layer: Layer, settings: seq<Setting>, i: nat,
                                      v: Value)
    requires k.computed.None? && layer.file == k.file && Admits(layer.scope, k.scope)
    requires PrefixFree(settings) && i < |settings| && settings[i] == Setting(BindPath(k, bound), v)
    requires (forall s | s in settings :: s.path != []) && layer.accepted == SetAll(map[], settings)
    ensures Effective(k, bound, [layer]) == Some(v)
  {
    assert settings[i] in settings;
    SetAllAt(map[], settings, i);
    LayerGetText(layer, BindPath(k, bound));
    assert Sets(k, BindPath(k, bound), layer);
    assert [layer][..0] == [];
  }

  lemma {:induction false} EmittedHas(list: seq<Bound>, layers: Option<seq<Layer>>, b: Bound) returns (i: nat)
    requires b in list && ValueOf(b, layers).Some?
    ensures i < |Emitted(list, layers, b.k.file)|
    ensures Emitted(list, layers, b.k.file)[i] == Setting(PathOf(b), ValueOf(b, layers).value)
  {
    var n := |list| - 1;
    if list[n] == b {
      i := |Emitted(list[..n], layers, b.k.file)|;
    } else {
      i := EmittedHas(list[..n], layers, b);
    }
  }
}
