/** Layers and what resolves through them: fail-closed switches, sectioned loads (`load.rs`). */
module SettingsLayers {
  import opened Basics
  import opened SettingsValues
  import opened SettingsSchema
  import opened SettingsLoad
  import opened SettingsPaths

  datatype Layer = Layer(file: string, scope: LayerScope, accepted: map<Key, Value>)

  /** `Layer::from_text`: `parsed` is the document, or nothing when the text does not parse. */
  function LayerOf(src: Source, parsed: Option<Value>): Layer
    requires HavePaths(KeysOf(src.schema.keys, src.file))
  {
    var accepted :=
      if parsed.None? then
        SetAll(map[], ClosedFileSettings(KeysOf(src.schema.keys, src.file), src.scope, None))
      else if parsed.value.Mapping? then Accepted(src, parsed.value.m, None)
      else map[];
    Layer(src.file, src.scope, accepted)
  }

  function LayerGet(layer: Layer, path: Path): Option<Value>
  {
    if path == [] || Text(path[0]) !in layer.accepted then None
    else ValueAt(layer.accepted[Text(path[0])], path[1..])
  }

  lemma {:induction false} LayerGetText(layer: Layer, path: Path)
    requires path != [] && TextAt(Mapping(layer.accepted), path).Some?
    ensures LayerGet(layer, path) == TextAt(Mapping(layer.accepted), path)
  {
    TextAtReads(layer.accepted[Text(path[0])], path[1..]);
  }

  // ----- resolving -----

  predicate Sets(k: KeySpec, path: Path, layer: Layer)
  {
    layer.file == k.file && Admits(layer.scope, k.scope) && LayerGet(layer, path).Some?
  }

  /** The highest layer that sets the key. */
  function Winner(k: KeySpec, path: Path, layers: seq<Layer>): (w: Option<nat>)
    ensures w.Some? ==> w.value < |layers| && Sets(k, path, layers[w.value])
    ensures w.Some? ==> forall j | w.value < j < |layers| :: !Sets(k, path, layers[j])
    ensures w.None? ==> forall j | 0 <= j < |layers| :: !Sets(k, path, layers[j])
  {
    if layers == [] then None
    else if Sets(k, path, layers[|layers| - 1]) then Some(|layers| - 1)
    else Winner(k, path, layers[..|layers| - 1])
  }

  function Effective(k: KeySpec, bound: seq<string>, layers: seq<Layer>): Option<Value>
  {
    if k.computed.Some? then Some(k.computed.value(bound))
    else
      var w := Winner(k, BindPath(k, bound), layers);
      if w.Some? then LayerGet(layers[w.value], BindPath(k, bound)) else k.default(bound)
  }

  /** `resolve`: walk the layers, lowest first, each that sets the key taking over. */
  method Resolve(k: KeySpec, bound: seq<string>, layers: seq<Layer>)
    returns (value: Option<Value>, from: Option<nat>)
    ensures value == Effective(k, bound, layers)
    ensures k.computed.None? ==> from == Winner(k, BindPath(k, bound), layers)
  {
    var path := BindPath(k, bound);
    if k.computed.Some? {
      return Some(k.computed.value(bound)), None;
    }
    value, from := k.default(bound), None;
    for i := 0 to |layers|
      invariant from == Winner(k, path, layers[..i])
      invariant value == if from.Some? then LayerGet(layers[from.value], path) else k.default(bound)
    {
      assert layers[..i + 1][..i] == layers[..i];
      var l := layers[i];
      if l.file == k.file && Admits(l.scope, k.scope) {
        var v := LayerGet(l, path);
        if v.Some? {
          value, from := v, Some(i);
        }
      }
    }
    assert layers[..|layers|] == layers;
  }

  /** A computed key resolves to its computed value, whatever the layers hold; any other to what the highest
      layer that sets it holds there, and where none does to its default. */
  lemma {:induction false} ResolvedIff(k: KeySpec, bound: seq<string>, layers: seq<Layer>, o: Option<Value>)
    ensures k.computed.Some? ==> Effective(k, bound, layers) == Some(k.computed.value(bound))
    ensures k.computed.None? ==> (Effective(k, bound, layers) == o <==>
              || ((forall i | 0 <= i < |layers| :: !Sets(k, BindPath(k, bound), layers[i])) && o == k.default(bound))
              || (exists i :: 0 <= i < |layers| && Sets(k, BindPath(k, bound), layers[i])
                    && o == LayerGet(layers[i], BindPath(k, bound))
                    && forall j | i < j < |layers| :: !Sets(k, BindPath(k, bound), layers[j])))
  {
    var w := Winner(k, BindPath(k, bound), layers);
    if i :| 0 <= i < |layers| && Sets(k, BindPath(k, bound), layers[i])
            && o == LayerGet(layers[i], BindPath(k, bound))
            && forall j | i < j < |layers| :: !Sets(k, BindPath(k, bound), layers[j])
    {
      assert w == Some(i);
    }
  }

  /** The layers that may not hold a key of the scope. */
  predicate Barred(layer: LayerScope, scope: Scope)
  {
    match scope
    case User => layer != UserLayer
    case Project => layer != ProjectLayer
    case Machine => layer == ProjectLayer
    case Both => false
  }

  /** The layer is of another file than the key's, or may not hold it. */
  predicate Apart(k: KeySpec, layer: Layer) { layer.file != k.file || Barred(layer.scope, k.scope) }

  /** A user key depends on its file's user layers only, a project key on its project layers only, and a machine
      key on no project layer: whatever the others hold, the key resolves alike. */
  lemma {:induction false} BarredDoNotCount(k: KeySpec, bound: seq<string>, layers: seq<Layer>, others: seq<Layer>)
    requires |others| == |layers|
    requires forall i | 0 <= i < |layers| :: others[i] == layers[i] || (Apart(k, layers[i]) && Apart(k, others[i]))
    ensures Effective(k, bound, others) == Effective(k, bound, layers)
  {
    if layers != [] && k.computed.None? {
      SameWinner(k, BindPath(k, bound), layers, others);
    }
  }

  lemma {:induction false} SameWinner(k: KeySpec, path: Path, layers: seq<Layer>, others: seq<Layer>)
    requires |others| == |layers|
    requires forall i | 0 <= i < |layers| :: others[i] == layers[i] || (Apart(k, layers[i]) && Apart(k, others[i]))
    ensures Winner(k, path, others) == Winner(k, path, layers)
    ensures Winner(k, path, layers).Some? ==>
              others[Winner(k, path, layers).value] == layers[Winner(k, path, layers).value]
  {
    if layers != [] {
      SameWinner(k, path, layers[..|layers| - 1], others[..|layers| - 1]);
    }
  }

  /** A layer that is not barred decides the key when it sets it and no higher one does. */
  lemma {:induction false} UnbarredDecides(k: KeySpec, bound: seq<string>, layers: seq<Layer>, i: nat)
    requires k.computed.None? && i < |layers| && layers[i].file == k.file && !Barred(layers[i].scope, k.scope)
    requires LayerGet(layers[i], BindPath(k, bound)).Some?
    requires forall j | i < j < |layers| :: LayerGet(layers[j], BindPath(k, bound)).None?
    ensures Effective(k, bound, layers) == LayerGet(layers[i], BindPath(k, bound))
  {
    ResolvedIff(k, bound, layers, LayerGet(layers[i], BindPath(k, bound)));
  }

  // ----- fail-closed switches -----

  /** `path` is a switch with the closed reading `c` of the raw value `x`, and no key sits above it. */
  ghost predicate Switch(keys: seq<KeySpec>, scope: LayerScope, path: Path, below: nat, x: Value, c: Value)
  {
    && below <= |path|
    && FindKey(keys, path).Some?
    && Admits(scope, FindKey(keys, path).value.scope)
    && FindKey(keys, path).value.failClosed.Some?
    && FindKey(keys, path).value.failClosed.value(x) == Some(c)
    && (forall i | below <= i < |path| :: FindKey(keys, path[..i]).None?)
  }

  lemma {:induction false} ClosedDescends(keys: seq<KeySpec>, scope: LayerScope, path: Path, raw: Value, seg: string)
    requires FindKey(keys, path).None? && raw.Mapping? && Text(seg) in raw.m
    requires Closed(keys, scope, path + [seg], raw.m[Text(seg)]).Some?
    ensures Closed(keys, scope, path, raw).Some? && Closed(keys, scope, path, raw).value.Mapping?
    ensures Text(seg) in Closed(keys, scope, path, raw).value.m
    ensures Closed(keys, scope, path, raw).value.m[Text(seg)]
         == Closed(keys, scope, path + [seg], raw.m[Text(seg)]).value
  {
    var out := map key | key in raw.m && key.Text? && Closed(keys, scope, path + [key.s], raw.m[key]).Some?
               :: Closed(keys, scope, path + [key.s], raw.m[key]).value;
    assert Text(seg) in out;
    assert Closed(keys, scope, path, raw) == if out == map[] then None else Some(Mapping(out));
  }

  lemma {:induction false} ClosedKeepsSwitch(keys: seq<KeySpec>, scope: LayerScope, path: Path, raw: Value, q: Path,
                                             x: Value, c: Value)
    requires TextAt(raw, q) == Some(x) && Switch(keys, scope, path + q, |path|, x, c)
    ensures Closed(keys, scope, path, raw).Some?
    ensures TextAt(Closed(keys, scope, path, raw).value, q) == Some(c)
    decreases |q|
  {
    if q == [] {
      assert path + q == path;
    } else {
      var next := path + [q[0]];
      assert next + q[1..] == path + q;
      assert (path + q)[..|path|] == path;
      assert FindKey(keys, path).None?;
      assert Switch(keys, scope, next + q[1..], |next|, x, c);
      ClosedKeepsSwitch(keys, scope, next, raw.m[Text(q[0])], q[1..], x, c);
      ClosedDescends(keys, scope, path, raw, q[0]);
    }
  }

  predicate StartsWith(s: string, prefix: string) { prefix <= s }

  /** Section names are told apart from one another and from the units of per-entry sections, and
      each per-entry section owns one top-level key. */
  predicate NamesApart(sections: seq<SectionSpec>)
  {
    && (forall i, j | 0 <= i < j < |sections| :: sections[i].name != sections[j].name)
    && (forall i | 0 <= i < |sections| && sections[i].perEntry ::
          && |sections[i].top| == 1
          && forall j | 0 <= j < |sections| ::
               && !StartsWith(sections[j].name, sections[i].name + ".")
               && !StartsWith(sections[j].name, sections[i].name + "["))
  }

  /** A unit that fell back is its section, or is written so that it is no section's name. */
  lemma {:induction false} UnitsOfTop(src: Source, sec: SectionSpec, top: string, raw: Value, u: string)
    requires u in TopOutcome(src, sec, top, raw).units && u != sec.name
    ensures sec.perEntry && (StartsWith(u, sec.name + ".") || StartsWith(u, sec.name + "["))
  {
  }

  /** Under names told apart, a section falls back whole only through its own top-level keys. */
  lemma {:induction false} SectionFailsItself(src: Source, root: map<Key, Value>, only: Option<set<string>>,
                                              sec: SectionSpec)
    requires NamesApart(src.schema.sections) && sec in src.schema.sections
    requires sec.name in Failed(src, root, only)
    ensures exists key :: key in root && Read(src, only, key) && Owner(src, key).value.name == sec.name
                          && sec.name in OutcomeOf(src, root, key).units
  {
    var key :| key in root && Read(src, only, key) && sec.name in OutcomeOf(src, root, key).units;
    var owner := Owner(src, key).value;
    if owner.name != sec.name {
      UnitsOfTop(src, owner, key.s, root[key], sec.name);
    }
  }

  /** The document reads the switch at `path` closed as `c`, one way or another. */
  ghost predicate ClosedByWhole(src: Source, root: map<Key, Value>, path: Path, c: Value)
  {
    && path != [] && Text(path[0]) in root && Owner(src, Text(path[0])).Some?
    && var sec := Owner(src, Text(path[0])).value;
    && var v := StripRetired(RetiredIn(src), path[0], root[Text(path[0])]);
    && var keys := KeysOf(src.schema.keys, src.file);
    && !(sec.perEntry && (v.Mapping? || v.Sequence?))
    && !Passes(keys, src.scope, [path[0]], v)
    && exists x :: TextAt(v, path[1..]) == Some(x) && Switch(keys, src.scope, path, 1, x, c)
  }

  ghost predicate ClosedByEntry(src: Source, root: map<Key, Value>, path: Path, c: Value)
  {
    && |path| >= 2 && Text(path[0]) in root && Owner(src, Text(path[0])).Some?
    && var sec := Owner(src, Text(path[0])).value;
    && var v := StripRetired(RetiredIn(src), path[0], root[Text(path[0])]);
    && var keys := KeysOf(src.schema.keys, src.file);
    && sec.perEntry && v.Mapping? && Text(path[1]) in v.m
    && (forall key | key in v.m :: !NameRefused(sec, key))
    && !EntryPasses(keys, src.scope, sec, path[0], Text(path[1]), v.m[Text(path[1])])
    && exists x :: TextAt(v.m[Text(path[1])], path[2..]) == Some(x) && Switch(keys, src.scope, path, 2, x, c)
  }

  /** An item of the section's list fails, and `part`, the closed reading of the list of it alone, stands
      in its place. */
  ghost predicate ClosedByItem(src: Source, root: map<Key, Value>, path: Path, c: Value)
  {
    && |path| == 1 && Text(path[0]) in root && Owner(src, Text(path[0])).Some?
    && var sec := Owner(src, Text(path[0])).value;
    && var v := StripRetired(RetiredIn(src), path[0], root[Text(path[0])]);
    && var keys := KeysOf(src.schema.keys, src.file);
    && sec.perEntry && v.Sequence?
    && exists i, part :: ItemClosed(keys, src.scope, path, v.items, i, part, c)
  }

  ghost predicate ItemClosed(keys: seq<KeySpec>, scope: LayerScope, path: Path, items: seq<Value>, i: nat,
                             part: seq<Value>, c: Value)
  {
    && |path| == 1 && i < |items| && !Passes(keys, scope, path, Sequence([items[i]]))
    && Switch(keys, scope, path, 1, Sequence([items[i]]), Sequence(part))
    && c == Sequence(ItemsKept(keys, scope, path[0], items[..i]) + part
                     + ItemsKept(keys, scope, path[0], items[i + 1..]))
  }

  /** The key's switch has the closed reading `c` of no value, where the layer may hold it. */
  predicate OffAs(k: KeySpec, scope: LayerScope, c: Value)
  {
    Admits(scope, k.scope) && k.failClosed.Some? && k.failClosed.value(Null) == Some(c)
  }

  /** The key is one of the section's entries' own. */
  predicate InEntry(k: KeySpec, sec: SectionSpec) { k.section == sec.name && |k.path| >= 2 && k.path[1] == STAR }

  /** The entry is one the key declares, or one the file names as the section allows. */
  predicate NamedEntry(k: KeySpec, sec: SectionSpec, given: seq<Key>, n: string)
  {
    n in k.instances || (Text(n) in given && (sec.entry.Some? ==> sec.entry.value(n)))
  }

  /** An entry name is refused; the switch is one the section declares or the file names. */
  ghost predicate ClosedByName(src: Source, root: map<Key, Value>, path: Path, c: Value)
  {
    && path != [] && path[0] != STAR && Text(path[0]) in root && Owner(src, Text(path[0])).Some?
    && var sec := Owner(src, Text(path[0])).value;
    && var v := StripRetired(RetiredIn(src), path[0], root[Text(path[0])]);
    && var keys := KeysOf(src.schema.keys, src.file);
    && sec.perEntry && v.Mapping?
    && (exists key :: key in v.m && key.Text? && sec.entry.Some? && !sec.entry.value(key.s))
    && PathsApart(keys) && (forall k | k in keys && InEntry(k, sec) :: k.path[0] == path[0])
    && exists k, n :: k in keys && InEntry(k, sec) && OffAs(k, src.scope, c)
                      && NamedEntry(k, sec, src.order(v.m), n) && path == BindPath(k, [n])
  }

  predicate OnlyStarAt(name: string, i: nat)
  {
    i < |name| && name[i] == '*' && forall j | 0 <= j < |name| && j != i :: name[j] != '*'
  }

  /** Exactly one `*` is in the name. */
  predicate OneStar(name: string) { exists i | 0 <= i < |name| :: OnlyStarAt(name, i) }

  /** The path is a fixed key's own, or a pattern's at a declared instance. */
  predicate AtDeclared(k: KeySpec, path: Path)
  {
    || ('*' !in k.name && path == BindPath(k, []))
    || (OneStar(k.name) && exists n | n in k.instances :: path == BindPath(k, [n]))
  }

  /** The file does not parse. */
  ghost predicate ClosedByNoParse(src: Source, path: Path, c: Value)
  {
    var keys := KeysOf(src.schema.keys, src.file);
    && PathsApart(keys) && (forall k | k in keys :: Formed(k))
    && exists k :: k in keys && OffAs(k, src.scope, c) && AtDeclared(k, path)
  }

  lemma {:induction false} WholeReadsClosed(src: Source, root: map<Key, Value>, path: Path, c: Value)
    requires HavePaths(KeysOf(src.schema.keys, src.file)) && ClosedByWhole(src, root, path, c)
    ensures LayerGet(LayerOf(src, Some(Mapping(root))), path) == Some(c)
  {
    var key := Text(path[0]);
    var v := StripRetired(RetiredIn(src), path[0], root[key]);
    var keys := KeysOf(src.schema.keys, src.file);
    var x :| TextAt(v, path[1..]) == Some(x) && Switch(keys, src.scope, path, 1, x, c);
    assert path == [path[0]] + path[1..];
    ClosedKeepsSwitch(keys, src.scope, [path[0]], v, path[1..], x, c);
    assert OutcomeOf(src, root, key).closed.Some?;
    assert key in Accepted(src, root, None);
    TextAtReads(Accepted(src, root, None)[key], path[1..]);
  }

  /** A per-entry section whose own key fails by entry or item does not fall back whole. */
  lemma {:induction false} EntrySectionStands(src: Source, root: map<Key, Value>, key: Key)
    requires NamesApart(src.schema.sections) && key in root && Owner(src, key).Some?
    requires Owner(src, key).value.perEntry && Owner(src, key).value.name !in OutcomeOf(src, root, key).units
    ensures Owner(src, key).value.name !in Failed(src, root, None)
  {
    var sec := Owner(src, key).value;
    if sec.name in Failed(src, root, None) {
      SectionFailsItself(src, root, None, sec);
      var other :| other in root && Read(src, None, other) && Owner(src, other).value.name == sec.name
                   && sec.name in OutcomeOf(src, root, other).units;
      SameOwner(src, key, other);
      assert false;
    }
  }

  lemma {:induction false} SameOwner(src: Source, a: Key, b: Key)
    requires NamesApart(src.schema.sections) && Owner(src, a).Some? && Owner(src, b).Some?
    requires Owner(src, a).value.name == Owner(src, b).value.name && Owner(src, a).value.perEntry
    ensures Owner(src, a) == Owner(src, b) && a == b
  {
    var i :| 0 <= i < |src.schema.sections| && src.schema.sections[i] == Owner(src, a).value;
    var j :| 0 <= j < |src.schema.sections| && src.schema.sections[j] == Owner(src, b).value;
    assert i == j;
    assert |src.schema.sections[i].top| == 1;
  }

  /** The failing entry's place in what is kept holds its closed reading. */
  lemma {:induction false} EntryReplaced(src: Source, keys: seq<KeySpec>, sec: SectionSpec, path: Path,
                                         m: map<Key, Value>, x: Value, c: Value)
    requires |path| >= 2 && Text(path[1]) in m && NameAllowed(sec, Text(path[1]))
    requires !EntryPasses(keys, src.scope, sec, path[0], Text(path[1]), m[Text(path[1])])
    requires TextAt(m[Text(path[1])], path[2..]) == Some(x) && Switch(keys, src.scope, path, 2, x, c)
    ensures TextAt(EntriesOutcome(src, keys, sec, path[0], m).kept, path[1..]) == Some(c)
  {
    var entry := Text(path[1]);
    assert path == [path[0], path[1]] + path[2..];
    ClosedKeepsSwitch(keys, src.scope, [path[0], path[1]], m[entry], path[2..], x, c);
    assert path[1..][1..] == path[2..];
  }

  lemma {:induction false} EntryReadsClosed(src: Source, root: map<Key, Value>, path: Path, c: Value)
    requires HavePaths(KeysOf(src.schema.keys, src.file)) && NamesApart(src.schema.sections)
    requires ClosedByEntry(src, root, path, c)
    requires NameAllowed(Owner(src, Text(path[0])).value, Text(path[1]))
    ensures LayerGet(LayerOf(src, Some(Mapping(root))), path) == Some(c)
  {
    var key := Text(path[0]);
    var sec := Owner(src, key).value;
    var v := StripRetired(RetiredIn(src), path[0], root[key]);
    var keys := KeysOf(src.schema.keys, src.file);
    var x :| TextAt(v.m[Text(path[1])], path[2..]) == Some(x) && Switch(keys, src.scope, path, 2, x, c);
    EntryReplaced(src, keys, sec, path, v.m, x, c);
    var o := EntriesOutcome(src, keys, sec, path[0], v.m);
    KeptLoads(src, root, key, o);
    TextAtReads(o.kept, path[1..]);
  }

  lemma {:induction false} Regrouped(whole: seq<Value>, most: seq<Value>, rest: seq<Value>,
                                     a: seq<Value>, b: seq<Value>, c: seq<Value>, d: seq<Value>)
    requires whole == most + d && most == a + b + c && rest == c + d
    ensures whole == a + b + rest
  {
  }

  lemma {:induction false} ItemsKeptLast(keys: seq<KeySpec>, scope: LayerScope, top: string, items: seq<Value>,
                                         front: seq<Value>, last: Value)
    requires items == front + [last]
    ensures ItemsKept(keys, scope, top, items) == ItemsKept(keys, scope, top, front) + ItemKept(keys, scope, top, last)
  {
    assert items[..|items| - 1] == front;
  }

  lemma {:induction false} ItemsKeptSplit(keys: seq<KeySpec>, scope: LayerScope, top: string,
                                          items: seq<Value>, before: seq<Value>, item: Value, after: seq<Value>)
    requires items == (before + [item]) + after
    ensures ItemsKept(keys, scope, top, items)
         == ItemsKept(keys, scope, top, before) + ItemKept(keys, scope, top, item) + ItemsKept(keys, scope, top, after)
    decreases |after|
  {
    if after == [] {
      assert items == before + [item];
      ItemsKeptLast(keys, scope, top, items, before, item);
    } else {
      var front, last := after[..|after| - 1], after[|after| - 1];
      ItemsKeptSplit(keys, scope, top, (before + [item]) + front, before, item, front);
      ItemsKeptMore(keys, scope, top, items, before, item, after, front, last);
    }
  }

  lemma {:induction false} ItemsKeptMore(keys: seq<KeySpec>, scope: LayerScope, top: string, items: seq<Value>,
                                         before: seq<Value>, item: Value, after: seq<Value>, front: seq<Value>,
                                         last: Value)
    requires items == (before + [item]) + after && after == front + [last]
    requires ItemsKept(keys, scope, top, (before + [item]) + front)
          == ItemsKept(keys, scope, top, before) + ItemKept(keys, scope, top, item) + ItemsKept(keys, scope, top, front)
    ensures ItemsKept(keys, scope, top, items)
         == ItemsKept(keys, scope, top, before) + ItemKept(keys, scope, top, item) + ItemsKept(keys, scope, top, after)
  {
    var most := (before + [item]) + front;
    assert items == most + [last];
    ItemsKeptLast(keys, scope, top, items, most, last);
    ItemsKeptLast(keys, scope, top, after, front, last);
    Regrouped(ItemsKept(keys, scope, top, items), ItemsKept(keys, scope, top, most), ItemsKept(keys, scope, top, after),
              ItemsKept(keys, scope, top, before), ItemKept(keys, scope, top, item),
              ItemsKept(keys, scope, top, front), ItemKept(keys, scope, top, last));
  }

  /** The list that loads has the item's closed reading in its place. */
  lemma {:induction false} ItemReplaced(keys: seq<KeySpec>, scope: LayerScope, path: Path, items: seq<Value>, i: nat,
                                        part: seq<Value>, c: Value)
    requires ItemClosed(keys, scope, path, items, i, part, c)
    ensures c == Sequence(ItemsKept(keys, scope, path[0], items))
  {
    assert path == [path[0]];
    assert items == items[..i] + [items[i]] + items[i + 1..];
    ItemsKeptSplit(keys, scope, path[0], items, items[..i], items[i], items[i + 1..]);
  }

  /** What is kept of a top-level key loads, unless its section falls back whole. */
  lemma {:induction false} KeptLoads(src: Source, root: map<Key, Value>, key: Key, o: Outcome)
    requires NamesApart(src.schema.sections) && key in root && Owner(src, key).Some?
    requires o == OutcomeOf(src, root, key) && o.closed.None?
    requires Owner(src, key).value.perEntry && Owner(src, key).value.name !in o.units
    ensures key in Accepted(src, root, None) && Accepted(src, root, None)[key] == o.kept
  {
    EntrySectionStands(src, root, key);
  }

  lemma {:induction false} ItemReadsClosed(src: Source, root: map<Key, Value>, path: Path, c: Value)
    requires HavePaths(KeysOf(src.schema.keys, src.file)) && NamesApart(src.schema.sections)
    requires ClosedByItem(src, root, path, c)
    ensures LayerGet(LayerOf(src, Some(Mapping(root))), path) == Some(c)
  {
    ItemLoads(src, root, path, c);
  }

  lemma {:induction false} ItemLoads(src: Source, root: map<Key, Value>, path: Path, c: Value)
    requires NamesApart(src.schema.sections) && ClosedByItem(src, root, path, c)
    ensures Text(path[0]) in Accepted(src, root, None) && Accepted(src, root, None)[Text(path[0])] == c
  {
    var key := Text(path[0]);
    var sec := Owner(src, key).value;
    var v := StripRetired(RetiredIn(src), path[0], root[key]);
    var keys := KeysOf(src.schema.keys, src.file);
    assert c == Sequence(ItemsKept(keys, src.scope, path[0], v.items)) by {
      var i: nat, part :| ItemClosed(keys, src.scope, path, v.items, i, part, c);
      ItemReplaced(keys, src.scope, path, v.items, i, part, c);
    }
    KeptLoads(src, root, key, ItemsOutcome(src, keys, sec, path[0], v.items));
  }

  lemma {:induction false} NamesGiven(sec: SectionSpec, given: seq<Key>, n: string)
    ensures n in AllowedNames(sec, given) <==> Text(n) in given && NameAllowed(sec, Text(n))
  {
    if given != [] {
      assert given == given[..|given| - 1] + [given[|given| - 1]];
      NamesGiven(sec, given[..|given| - 1], n);
    }
  }

  lemma {:induction false} WithoutHolds(names: seq<string>, known: seq<string>, n: string)
    ensures n in Without(names, known) <==> n in names && n !in known
  {
    if names != [] { WithoutHolds(names[1..], known, n); }
  }

  /** The closed entries are those the key declares and those the file names as the section allows. */
  lemma {:induction false} EntryNamesIff(k: KeySpec, sec: SectionSpec, given: seq<Key>, n: string)
    ensures n in EntryNames(k, AllowedNames(sec, given)) <==> NamedEntry(k, sec, given, n)
  {
    NamesGiven(sec, given, n);
    WithoutHolds(AllowedNames(sec, given), k.instances, n);
  }

  /** Where a setting of closed entries comes from. */
  predicate FromEntry(k: KeySpec, n: string, scope: LayerScope, sec: SectionSpec, names: seq<string>, s: Setting)
  {
    InEntry(k, sec) && OffAs(k, scope, s.value) && n in EntryNames(k, names) && s.path == BindPath(k, [n])[1..]
  }

  lemma {:induction false} EntrySettingsIff(keys: seq<KeySpec>, scope: LayerScope, sec: SectionSpec,
                                            names: seq<string>, s: Setting)
    ensures s in ClosedEntrySettings(keys, scope, sec, names)
       <==> exists k, n :: k in keys && FromEntry(k, n, scope, sec, names, s)
  {
    if keys != [] {
      assert forall k :: k in keys <==> k == keys[0] || k in keys[1..];
      EntrySettingsIff(keys[1..], scope, sec, names, s);
      var mine := if InClosedEntry(keys[0], sec) && ClosedOfNothing(keys[0], scope).Some?
                  then EntrySettings(keys[0], ClosedOfNothing(keys[0], scope).value, EntryNames(keys[0], names))
                  else [];
      KeyEntriesIff(keys[0], scope, sec, names, s, mine);
      assert ClosedEntrySettings(keys, scope, sec, names) == mine + ClosedEntrySettings(keys[1..], scope, sec, names);
    }
  }

  lemma {:induction false} KeyEntriesIff(k: KeySpec, scope: LayerScope, sec: SectionSpec, names: seq<string>,
                                         s: Setting, mine: seq<Setting>)
    requires mine == if InClosedEntry(k, sec) && ClosedOfNothing(k, scope).Some?
                     then EntrySettings(k, ClosedOfNothing(k, scope).value, EntryNames(k, names)) else []
    ensures s in mine <==> exists n :: FromEntry(k, n, scope, sec, names, s)
  {
    if s in mine {
      var i :| 0 <= i < |mine| && mine[i] == s;
      assert FromEntry(k, EntryNames(k, names)[i], scope, sec, names, s);
    }
    if n :| FromEntry(k, n, scope, sec, names, s) {
      var i :| 0 <= i < |EntryNames(k, names)| && EntryNames(k, names)[i] == n;
      assert mine[i] == s;
    }
  }

  /** Two switches bound under one top-level key are one, or stand apart below it. */
  lemma {:induction false} EntryApart(keys: seq<KeySpec>, k: KeySpec, n: string, other: KeySpec, m: string, top: string)
    requires PathsApart(keys) && k in keys && other in keys && (k != other || n != m) && top != STAR
    requires |k.path| >= 2 && |other.path| >= 2 && k.path[0] == other.path[0] == top
    requires k.path[1] == STAR && other.path[1] == STAR
    ensures !Related(BindPath(other, [m])[1..], BindPath(k, [n])[1..])
  {
    var p, q := BindPath(other, [m]), BindPath(k, [n]);
    EntryShape(k, n, top);
    EntryShape(other, m, top);
    if k != other {
      KeysApartPaths(keys, other, k);
      ApartBound(other.path, [m], k.path, [n]);
      assert p == [top] + p[1..] && q == [top] + q[1..];
    } else {
      assert p[1..][0] != q[1..][0];
    }
  }

  lemma {:induction false} EntryShape(k: KeySpec, n: string, top: string)
    requires |k.path| >= 2 && k.path[0] == top != STAR && k.path[1] == STAR
    ensures BindPath(k, [n])[0] == top && BindPath(k, [n])[1] == n
  {
    assert BindParts(k.path, [n]) == [top] + BindParts(k.path[1..], [n]);
    assert BindParts(k.path[1..], [n]) == [n] + BindParts(k.path[1..][1..], [n][1..]);
  }

  lemma {:induction false} ClosedEntryReads(keys: seq<KeySpec>, scope: LayerScope, sec: SectionSpec,
                                            names: seq<string>, k: KeySpec, n: string, c: Value, top: string)
    requires PathsApart(keys) && k in keys && InEntry(k, sec) && OffAs(k, scope, c) && n in EntryNames(k, names)
    requires top != STAR && forall other | other in keys && InEntry(other, sec) :: other.path[0] == top
    ensures TextAt(Mapping(SetAll(map[], ClosedEntrySettings(keys, scope, sec, names))), BindPath(k, [n])[1..])
         == Some(c)
  {
    var list, one := ClosedEntrySettings(keys, scope, sec, names), Setting(BindPath(k, [n])[1..], c);
    assert FromEntry(k, n, scope, sec, names, one);
    EntrySettingsIff(keys, scope, sec, names, one);
    forall s | s in list ensures s == one || !Related(s.path, one.path) {
      EntrySettingsIff(keys, scope, sec, names, s);
      var other, m :| other in keys && FromEntry(other, m, scope, sec, names, s);
      if other != k || m != n { EntryApart(keys, k, n, other, m, top); }
    }
    SetAllHolds(map[], list, one);
  }

  lemma {:induction false} NameReadsClosed(src: Source, root: map<Key, Value>, path: Path, c: Value)
    requires HavePaths(KeysOf(src.schema.keys, src.file)) && ClosedByName(src, root, path, c)
    ensures LayerGet(LayerOf(src, Some(Mapping(root))), path) == Some(c)
  {
    var key := Text(path[0]);
    var sec := Owner(src, key).value;
    var v := StripRetired(RetiredIn(src), path[0], root[key]);
    var keys := KeysOf(src.schema.keys, src.file);
    var names := AllowedNames(sec, src.order(v.m));
    var closed := Mapping(SetAll(map[], ClosedEntrySettings(keys, src.scope, sec, names)));
    assert TextAt(closed, path[1..]) == Some(c) by {
      var k, n :| k in keys && InEntry(k, sec) && OffAs(k, src.scope, c)
                  && NamedEntry(k, sec, src.order(v.m), n) && path == BindPath(k, [n]);
      EntryNamesIff(k, sec, src.order(v.m), n);
      ClosedEntryReads(keys, src.scope, sec, names, k, n, c, path[0]);
    }
    RefusedCloses(src, root, None, key, sec, v.m, closed);
    TextAtReads(closed, path[1..]);
  }

  /** A refused name leaves the section's key with its closed entries. */
  lemma {:induction false} RefusedCloses(src: Source, root: map<Key, Value>, only: Option<set<string>>, key: Key,
                                         sec: SectionSpec, m: map<Key, Value>, closed: Value)
    requires key in root && Read(src, only, key) && Owner(src, key) == Some(sec) && sec.perEntry
    requires StripRetired(RetiredIn(src), key.s, root[key]) == Mapping(m)
    requires exists e :: e in m && e.Text? && sec.entry.Some? && !sec.entry.value(e.s)
    requires closed == Mapping(SetAll(map[], ClosedEntrySettings(KeysOf(src.schema.keys, src.file), src.scope, sec,
                                                                AllowedNames(sec, src.order(m)))))
    ensures key in Accepted(src, root, only) && Accepted(src, root, only)[key] == closed
  {
    var e :| e in m && e.Text? && sec.entry.Some? && !sec.entry.value(e.s);
    assert NameRefused(sec, e);
    assert OutcomeOf(src, root, key).closed == Some(closed);
  }

  lemma {:induction false} FirstStar(name: string, rest: string)
    requires name != "" && rest == name[1..] && name[0] == '*'
    ensures OneStar(name) <==> '*' !in rest
  {
    if '*' !in rest {
      assert OnlyStarAt(name, 0) by {
        forall j | 0 < j < |name| ensures name[j] != '*' { assert name[j] == rest[j - 1] && rest[j - 1] in rest; }
      }
    } else {
      var j :| 0 <= j < |rest| && rest[j] == '*';
      assert name[j + 1] == '*';
    }
  }

  lemma {:induction false} LaterStar(name: string, rest: string)
    requires name != "" && rest == name[1..] && name[0] != '*'
    ensures OneStar(name) <==> OneStar(rest)
  {
    if i: nat :| i < |rest| && OnlyStarAt(rest, i) {
      assert OnlyStarAt(name, i + 1) by {
        forall j | 0 < j < |name| && j != i + 1 ensures name[j] != '*' { assert name[j] == rest[j - 1]; }
      }
    }
    if i: nat :| i < |name| && OnlyStarAt(name, i) {
      assert OnlyStarAt(rest, i - 1) by {
        forall j | 0 <= j < |rest| && j != i - 1 ensures rest[j] != '*' { assert rest[j] == name[j + 1]; }
      }
    }
  }

  lemma {:induction false} StarsCounted(name: string)
    ensures CountStars(name) == 0 <==> '*' !in name
    ensures CountStars(name) == 1 <==> OneStar(name)
  {
    if name != "" {
      var rest := name[1..];
      StarsCounted(rest);
      assert name == [name[0]] + rest;
      if name[0] == '*' { FirstStar(name, rest); } else { LaterStar(name, rest); }
    }
  }

  /** The bindings a switch is closed for bind exactly a fixed key's own path and a pattern's declared ones. */
  lemma {:induction false} ClosedBindingsIff(k: KeySpec, path: Path)
    ensures AtDeclared(k, path) <==> exists b :: b in ClosedBindings(k) && path == BindPath(k, b)
  {
    StarsCounted(k.name);
    if '*' !in k.name {
      assert [] in ClosedBindings(k);
    } else if OneStar(k.name) {
      var list := ClosedBindings(k);
      forall n | n in k.instances && path == BindPath(k, [n]) ensures [n] in list {
        var i :| 0 <= i < |k.instances| && k.instances[i] == n;
        assert list[i] == [n];
      }
      forall b | b in list && path == BindPath(k, b) ensures exists n | n in k.instances :: path == BindPath(k, [n]) {
        var i :| 0 <= i < |list| && list[i] == b;
        assert k.instances[i] in k.instances && b == [k.instances[i]];
      }
    }
  }

  /** Where a setting of a closed file comes from: a switch of a section that is read, at a binding it is
      closed for. */
  predicate FromSwitch(k: KeySpec, b: seq<string>, scope: LayerScope, only: Option<set<string>>, s: Setting)
  {
    && (only.Some? ==> k.section in only.value)
    && OffAs(k, scope, s.value) && b in ClosedBindings(k) && s.path == BindPath(k, b)
  }

  lemma {:induction false} FileSettingsIff(keys: seq<KeySpec>, scope: LayerScope, only: Option<set<string>>, s: Setting)
    requires HavePaths(keys)
    ensures s in ClosedFileSettings(keys, scope, only)
       <==> exists k, b :: k in keys && FromSwitch(k, b, scope, only, s)
  {
    if keys != [] {
      assert forall k :: k in keys <==> k == keys[0] || k in keys[1..];
      FileSettingsIff(keys[1..], scope, only, s);
      var c := ClosedOfNothing(keys[0], scope);
      var mine := if Selected(only, keys[0].section) && c.Some?
                  then SwitchSettings(keys[0], c.value, ClosedBindings(keys[0])) else [];
      KeySettingsIff(keys[0], scope, only, s, mine);
      assert ClosedFileSettings(keys, scope, only) == mine + ClosedFileSettings(keys[1..], scope, only);
    }
  }

  lemma {:induction false} KeySettingsIff(k: KeySpec, scope: LayerScope, only: Option<set<string>>, s: Setting,
                                          mine: seq<Setting>)
    requires k.path != []
    requires mine == if Selected(only, k.section) && ClosedOfNothing(k, scope).Some?
                     then SwitchSettings(k, ClosedOfNothing(k, scope).value, ClosedBindings(k)) else []
    ensures s in mine <==> exists b :: FromSwitch(k, b, scope, only, s)
  {
    if s in mine {
      var i :| 0 <= i < |mine| && mine[i] == s;
      assert FromSwitch(k, ClosedBindings(k)[i], scope, only, s);
    }
    if b :| FromSwitch(k, b, scope, only, s) {
      var i :| 0 <= i < |ClosedBindings(k)| && ClosedBindings(k)[i] == b;
      assert mine[i] == s;
    }
  }

  /** Two switches' settings in a closed file are one, or stand apart. */
  lemma {:induction false} SwitchApart(keys: seq<KeySpec>, k: KeySpec, b: seq<string>, other: KeySpec, d: seq<string>)
    requires PathsApart(keys) && k in keys && other in keys && Formed(k)
    requires b in ClosedBindings(k) && d in ClosedBindings(other) && (k != other || b != d)
    ensures !Related(BindPath(other, d), BindPath(k, b))
  {
    if k != other {
      KeysApartPaths(keys, other, k);
      ApartBound(other.path, d, k.path, b);
    } else {
      StarsCounted(k.name);
      BoundApart(k.path, d, b);
    }
  }

  lemma {:induction false} NoParseReadsClosed(src: Source, path: Path, c: Value)
    requires HavePaths(KeysOf(src.schema.keys, src.file))
    requires ClosedByNoParse(src, path, c)
    ensures LayerGet(LayerOf(src, None), path) == Some(c)
  {
    var keys := KeysOf(src.schema.keys, src.file);
    var k :| k in keys && OffAs(k, src.scope, c) && AtDeclared(k, path);
    ClosedBindingsIff(k, path);
    var b :| b in ClosedBindings(k) && path == BindPath(k, b);
    var list, one := ClosedFileSettings(keys, src.scope, None), Setting(path, c);
    assert FromSwitch(k, b, src.scope, None, one);
    FileSettingsIff(keys, src.scope, None, one);
    forall s | s in list ensures s == one || !Related(s.path, one.path) {
      FileSettingsIff(keys, src.scope, None, s);
      var other, d :| other in keys && FromSwitch(other, d, src.scope, None, s);
      if other != k || d != b { SwitchApart(keys, k, b, other, d); }
    }
    SetAllHolds(map[], list, one);
    LayerGetText(LayerOf(src, None), path);
  }

  /** A source that should read the switch at `path` closed: its top-level value, its entry or an item of
      its list failed the schema, an entry name of its section was refused, or the file does not parse. */
  ghost predicate ShouldClose(src: Source, parsed: Option<Value>, path: Path, c: Value)
  {
    if parsed.None? then ClosedByNoParse(src, path, c)
    else
      parsed.value.Mapping? &&
      var root := parsed.value.m;
      || ClosedByWhole(src, root, path, c)
      || (ClosedByEntry(src, root, path, c) && NameAllowed(Owner(src, Text(path[0])).value, Text(path[1])))
      || ClosedByItem(src, root, path, c)
      || ClosedByName(src, root, path, c)
  }

  lemma {:induction false} SwitchReadsClosed(src: Source, parsed: Option<Value>, path: Path, c: Value)
    requires HavePaths(KeysOf(src.schema.keys, src.file)) && NamesApart(src.schema.sections)
    requires ShouldClose(src, parsed, path, c)
    ensures LayerGet(LayerOf(src, parsed), path) == Some(c)
  {
    if parsed.None? {
      NoParseReadsClosed(src, path, c);
    } else {
      var root := parsed.value.m;
      if ClosedByWhole(src, root, path, c) {
        WholeReadsClosed(src, root, path, c);
      } else if ClosedByName(src, root, path, c) {
        NameReadsClosed(src, root, path, c);
      } else if ClosedByItem(src, root, path, c) {
        ItemReadsClosed(src, root, path, c);
      } else {
        EntryReadsClosed(src, root, path, c);
      }
    }
  }

  /** A fail-closed switch survives layering: it resolves to its closed value unless a higher layer
      that may hold the key sets it. */
  lemma {:induction false} FailClosedSurvives(src: Source, parsed: Option<Value>, k: KeySpec, bound: seq<string>,
                                              c: Value, layers: seq<Layer>, i: nat)
    requires HavePaths(KeysOf(src.schema.keys, src.file)) && NamesApart(src.schema.sections)
    requires k.computed.None? && k.file == src.file && Admits(src.scope, k.scope)
    requires ShouldClose(src, parsed, BindPath(k, bound), c)
    requires i < |layers| && layers[i] == LayerOf(src, parsed)
    requires forall j | i < j < |layers| :: !Sets(k, BindPath(k, bound), layers[j])
    ensures Effective(k, bound, layers) == Some(c)
  {
    SwitchReadsClosed(src, parsed, BindPath(k, bound), c);
    HighestWins(k, bound, c, layers, i);
  }

  lemma {:induction false} HighestWins(k: KeySpec, bound: seq<string>, c: Value, layers: seq<Layer>, i: nat)
    requires k.computed.None? && i < |layers| && Sets(k, BindPath(k, bound), layers[i])
    requires LayerGet(layers[i], BindPath(k, bound)) == Some(c)
    requires forall j | i < j < |layers| :: !Sets(k, BindPath(k, bound), layers[j])
    ensures Effective(k, bound, layers) == Some(c)
  {
  }

  // ----- sectioned loads -----

  /** The part of a layer the named sections own. */
  function Restricted(src: Source, accepted: map<Key, Value>, only: Option<set<string>>): map<Key, Value>
  {
    map key | key in accepted && Read(src, only, key) :: accepted[key]
  }

  /** A section read on its own would load, but a unit that fell back in a section left out is
      written like its name. */
  ghost predicate Overshadowed(src: Source, root: map<Key, Value>, only: Option<set<string>>)
  {
    exists key :: key in root && Read(src, only, key) && OutcomeOf(src, root, key).closed.None?
                  && Owner(src, key).value.name in Failed(src, root, None) - Failed(src, root, only)
  }

  /** A sectioned load accepts what the full load accepts under those sections, exactly when no
      failed unit elsewhere is written like one of them. */
  lemma {:induction false} SectionedAgreesIff(src: Source, root: map<Key, Value>, only: Option<set<string>>)
    ensures Accepted(src, root, only) == Restricted(src, Accepted(src, root, None), only)
       <==> !Overshadowed(src, root, only)
  {
    FewerFail(src, root, only);
    if Overshadowed(src, root, only) {
      ShadowDiffers(src, root, only);
    } else {
      UnshadowedAgrees(src, root, only);
    }
  }

  lemma {:induction false} FewerFail(src: Source, root: map<Key, Value>, only: Option<set<string>>)
    ensures Failed(src, root, only) <= Failed(src, root, None)
  {
  }

  lemma {:induction false} ShadowDiffers(src: Source, root: map<Key, Value>, only: Option<set<string>>)
    requires Overshadowed(src, root, only)
    ensures Accepted(src, root, only) != Restricted(src, Accepted(src, root, None), only)
  {
    var key :| key in root && Read(src, only, key) && OutcomeOf(src, root, key).closed.None?
               && Owner(src, key).value.name in Failed(src, root, None) - Failed(src, root, only);
    assert key in Accepted(src, root, only);
    assert key !in Restricted(src, Accepted(src, root, None), only);
  }

  lemma {:induction false} UnshadowedAgrees(src: Source, root: map<Key, Value>, only: Option<set<string>>)
    requires !Overshadowed(src, root, only) && Failed(src, root, only) <= Failed(src, root, None)
    ensures Accepted(src, root, only) == Restricted(src, Accepted(src, root, None), only)
  {
    var alone, part := Accepted(src, root, only), Restricted(src, Accepted(src, root, None), only);
    forall key | key in root && Read(src, only, key)
      ensures Loads(src, root, only, key) <==> Loads(src, root, None, key)
    {
    }
    assert alone.Keys == part.Keys;
  }

  /** With section names told apart, no failing section changes what another section loads. */
  lemma {:induction false} SectionedAgrees(src: Source, root: map<Key, Value>, only: Option<set<string>>)
    requires NamesApart(src.schema.sections)
    ensures Accepted(src, root, only) == Restricted(src, Accepted(src, root, None), only)
  {
    SectionedAgreesIff(src, root, only);
    if Overshadowed(src, root, only) {
      var key :| key in root && Read(src, only, key) && OutcomeOf(src, root, key).closed.None?
                 && Owner(src, key).value.name in Failed(src, root, None) - Failed(src, root, only);
      var sec := Owner(src, key).value;
      SectionFailsItself(src, root, None, sec);
      assert false;
    }
  }

  /** Names that are not told apart: an entry `b` of a per-entry section `a`, and a section `a.b`. */
  function ShadowSource(order: map<Key, Value> -> seq<Key>): Source
  {
    var entries := SectionSpec("a", "f", ["a"], true, None);
    var shadowed := SectionSpec("a.b", "f", ["x"], false, None);
    var x := KeySpec("x", "a.b", "f", ["x"], Both, (v: Value) => true, None, [], (b: seq<string>) => None, None,
                     false, false);
    Source(Schema([entries, shadowed], [x], map[]), "f", UserLayer, order)
  }

  /** A failing entry can take another section down with it in a full load: the file is well-formed
      under `a.b`, which loads alone but not beside the entry. */
  lemma {:induction false} ShadowedSectionDiffers(order: map<Key, Value> -> seq<Key>)
    ensures var src, only := ShadowSource(order), Some({"a.b"});
            var root := map[Text("a") := Mapping(map[Text("b") := Null]), Text("x") := Null];
            Accepted(src, root, only) != Restricted(src, Accepted(src, root, None), only)
  {
    var src, only := ShadowSource(order), Some({"a.b"});
    var root := map[Text("a") := Mapping(map[Text("b") := Null]), Text("x") := Null];
    var keys := KeysOf(src.schema.keys, "f");
    var a, x := Text("a"), Text("x");
    assert keys == src.schema.keys;
    assert Owner(src, a) == Some(src.schema.sections[0]);
    assert src.schema.sections[1..][0] == src.schema.sections[1];
    assert Owner(src, x) == Some(src.schema.sections[1]);
    assert TakesPath(keys[0], ["x"]);
    assert OutcomeOf(src, root, x) == Outcome(Null, {}, None);
    assert !TakesPath(keys[0], ["a", "b"]) && !LeadsOn(keys[0], ["a", "b"]);
    assert !Passes(keys, src.scope, ["a", "b"], Null);
    assert UnitOf(src.schema.sections[0], Text("b")) == "a.b";
    assert "a.b" in OutcomeOf(src, root, a).units;
    assert "a.b" in Failed(src, root, None) && "a.b" !in Failed(src, root, only);
    SectionedAgreesIff(src, root, only);
    assert Overshadowed(src, root, only);
  }
}
