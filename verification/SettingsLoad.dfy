/** Checking one settings file against its schema, section by section, and the layer it becomes
    (`load.rs`). */
module SettingsLoad {
  import opened Basics
  import opened SettingsValues
  import opened SettingsSchema

  /** What one file is checked with. `order` is the order a mapping is walked in. */
  datatype Source = Source(schema: Schema, file: string, scope: LayerScope, order: map<Key, Value> -> seq<Key>)

  ghost predicate Lists(order: map<Key, Value> -> seq<Key>)
  {
    forall m ::
      && (forall k :: k in order(m) <==> k in m)
      && (forall i, j | 0 <= i < j < |order(m)| :: order(m)[i] != order(m)[j])
  }

  // ----- keys of a file -----

  function KeysOf(keys: seq<KeySpec>, file: string): (out: seq<KeySpec>)
    ensures forall k | k in out :: k in keys && k.file == file && k.computed.None?
  {
    if keys == [] then []
    else if keys[0].file == file && keys[0].computed.None? then [keys[0]] + KeysOf(keys[1..], file)
    else KeysOf(keys[1..], file)
  }

  function FindKey(keys: seq<KeySpec>, path: Path): (found: Option<KeySpec>)
    ensures found.Some? ==> found.value in keys && TakesPath(found.value, path)
  {
    if keys == [] then None
    else if TakesPath(keys[0], path) then Some(keys[0])
    else FindKey(keys[1..], path)
  }

  predicate LeadsOn(k: KeySpec, path: Path)
  {
    |k.path| > |path| && forall i | 0 <= i < |path| :: k.path[i] == STAR || k.path[i] == path[i]
  }

  predicate Deeper(keys: seq<KeySpec>, path: Path) { exists i | 0 <= i < |keys| :: LeadsOn(keys[i], path) }

  // ----- checking a value and reading it closed -----

  /** `check_tree` finds nothing wrong with the value at `path`. */
  predicate Passes(keys: seq<KeySpec>, scope: LayerScope, path: Path, v: Value)
    decreases v
  {
    var k := FindKey(keys, path);
    if k.Some? then Admits(scope, k.value.scope) && k.value.accepts(v)
    else
      && Deeper(keys, path)
      && (v.Null? || v.Mapping?)
      && (v.Mapping? ==> forall key | key in v.m :: key.Text? && Passes(keys, scope, path + [key.s], v.m[key]))
  }

  /** The first `n` of the keys pass below the value at `path`. */
  predicate KeysPass(keys: seq<KeySpec>, scope: LayerScope, path: Path, m: map<Key, Value>, todo: seq<Key>, n: nat)
    requires n <= |todo| && forall key | key in todo :: key in m
  {
    forall j | 0 <= j < n :: KeyPasses(keys, scope, path, todo[j], m[todo[j]])
  }

  lemma {:induction false} AllKeysPass(keys: seq<KeySpec>, scope: LayerScope, path: Path, v: Value, todo: seq<Key>)
    requires v.Mapping? && FindKey(keys, path).None? && Deeper(keys, path) && forall key :: key in todo <==> key in v.m
    ensures KeysPass(keys, scope, path, v.m, todo, |todo|) <==> Passes(keys, scope, path, v)
  {
    assert forall key | key in v.m :: exists j | 0 <= j < |todo| :: todo[j] == key;
  }

  /** `check_tree`: the paths that fail are appended to `errs`. */
  method CheckTree(keys: seq<KeySpec>, scope: LayerScope, order: map<Key, Value> -> seq<Key>,
                   path: Path, v: Value, errs: seq<Path>)
    returns (now: seq<Path>)
    requires Lists(order)
    ensures errs <= now
    ensures now == errs <==> Passes(keys, scope, path, v)
    decreases v, 2
  {
    var k := FindKey(keys, path);
    if k.Some? {
      var good := Admits(scope, k.value.scope) && k.value.accepts(v);
      return if good then errs else errs + [path];
    }
    if !Deeper(keys, path) {
      return errs + [path];
    }
    match v
    case Null => now := errs;
    case Mapping(_) => now := CheckKeys(keys, scope, order, path, v, errs);
    case _ => now := errs + [path];
  }

  predicate KeyPasses(keys: seq<KeySpec>, scope: LayerScope, path: Path, key: Key, below: Value)
  {
    key.Text? && Passes(keys, scope, path + [key.s], below)
  }

  method CheckKey(keys: seq<KeySpec>, scope: LayerScope, order: map<Key, Value> -> seq<Key>,
                  path: Path, v: Value, key: Key, errs: seq<Path>)
    returns (now: seq<Path>)
    requires Lists(order) && v.Mapping? && key in v.m
    ensures errs <= now
    ensures now == errs <==> KeyPasses(keys, scope, path, key, v.m[key])
    decreases v, 0
  {
    if !key.Text? {
      return errs + [path + [Shown(key)]];
    }
    assert v.m[key] in v.m.Values;
    now := CheckTree(keys, scope, order, path + [key.s], v.m[key], errs);
  }

  lemma {:induction false} NothingNew(errs: seq<Path>, mid: seq<Path>, now: seq<Path>)
    requires errs <= mid <= now
    ensures errs <= now && (now == errs <==> mid == errs && now == mid)
  {
  }

  lemma {:induction false} NextKeyPasses(keys: seq<KeySpec>, scope: LayerScope, path: Path, m: map<Key, Value>,
                                         todo: seq<Key>, n: nat)
    requires n < |todo| && forall key | key in todo :: key in m
    ensures todo[n] in m
    ensures KeysPass(keys, scope, path, m, todo, n + 1)
       <==> KeysPass(keys, scope, path, m, todo, n) && KeyPasses(keys, scope, path, todo[n], m[todo[n]])
  {
  }

  /** The keys of a mapping no key names, one by one. */
  method CheckKeys(keys: seq<KeySpec>, scope: LayerScope, order: map<Key, Value> -> seq<Key>,
                   path: Path, v: Value, errs: seq<Path>)
    returns (now: seq<Path>)
    requires Lists(order) && v.Mapping? && FindKey(keys, path).None? && Deeper(keys, path)
    ensures errs <= now
    ensures now == errs <==> Passes(keys, scope, path, v)
    decreases v, 1
  {
    now := errs;
    var todo := order(v.m);
    ListsOnce(order, v.m, todo);
    for i := 0 to |todo|
      invariant errs <= now
      invariant now == errs <==> KeysPass(keys, scope, path, v.m, todo, i)
    {
      assert todo[i] in todo;
      ghost var mid := now;
      now := CheckKey(keys, scope, order, path, v, todo[i], now);
      NothingNew(errs, mid, now);
      NextKeyPasses(keys, scope, path, v.m, todo, i);
    }
    AllKeysPass(keys, scope, path, v, todo);
  }

  /** The fail-closed reading of the raw value at `path`: of its key, or of each switch inside. */
  function Closed(keys: seq<KeySpec>, scope: LayerScope, path: Path, raw: Value): Option<Value>
    decreases raw
  {
    var k := FindKey(keys, path);
    if k.Some? then
      if Admits(scope, k.value.scope) && k.value.failClosed.Some? then k.value.failClosed.value(raw) else None
    else if !raw.Mapping? then None
    else
      var out := map key | key in raw.m && key.Text? && Closed(keys, scope, path + [key.s], raw.m[key]).Some?
                 :: Closed(keys, scope, path + [key.s], raw.m[key]).value;
      if out == map[] then None else Some(Mapping(out))
  }

  /** The closed reading of no value, where the layer may hold the key. */
  function ClosedOfNothing(k: KeySpec, scope: LayerScope): Option<Value>
  {
    if Admits(scope, k.scope) && k.failClosed.Some? then k.failClosed.value(Null) else None
  }

  /** The entry names a closed section is written for: declared instances, then the file's own. */
  function EntryNames(k: KeySpec, names: seq<string>): seq<string>
  {
    k.instances + Without(names, k.instances)
  }

  function Without(names: seq<string>, known: seq<string>): seq<string>
  {
    if names == [] then []
    else if names[0] in known then Without(names[1..], known)
    else [names[0]] + Without(names[1..], known)
  }

  predicate InClosedEntry(k: KeySpec, sec: SectionSpec)
  {
    k.section == sec.name && |k.path| >= 2 && k.path[1] == STAR
  }

  function EntrySettings(k: KeySpec, c: Value, names: seq<string>): (list: seq<Setting>)
    requires |k.path| >= 2
    ensures |list| == |names|
    ensures forall i | 0 <= i < |names| :: list[i] == Setting(BindPath(k, [names[i]])[1..], c)
  {
    seq(|names|, i requires 0 <= i < |names| => Setting(BindPath(k, [names[i]])[1..], c))
  }

  function ClosedEntrySettings(keys: seq<KeySpec>, scope: LayerScope, sec: SectionSpec, names: seq<string>)
    : (list: seq<Setting>)
    ensures forall s | s in list :: s.path != []
  {
    if keys == [] then []
    else
      var c := ClosedOfNothing(keys[0], scope);
      var mine := if InClosedEntry(keys[0], sec) && c.Some?
                  then EntrySettings(keys[0], c.value, EntryNames(keys[0], names)) else [];
      mine + ClosedEntrySettings(keys[1..], scope, sec, names)
  }

  function CountStars(name: string): nat
  {
    if name == "" then 0 else (if name[0] == '*' then 1 else 0) + CountStars(name[1..])
  }

  /** The bindings a switch is closed for when nothing in the file can be read. */
  function ClosedBindings(k: KeySpec): seq<seq<string>>
  {
    if CountStars(k.name) == 0 then [[]]
    else if CountStars(k.name) == 1 then seq(|k.instances|, i requires 0 <= i < |k.instances| => [k.instances[i]])
    else []
  }

  predicate Selected(only: Option<set<string>>, section: string) { only.Some? ==> section in only.value }

  function SwitchSettings(k: KeySpec, c: Value, bindings: seq<seq<string>>): (list: seq<Setting>)
    requires k.path != []
    ensures |list| == |bindings|
    ensures forall i | 0 <= i < |bindings| :: list[i] == Setting(BindPath(k, bindings[i]), c)
    ensures forall s | s in list :: s.path != []
  {
    seq(|bindings|, i requires 0 <= i < |bindings| => Setting(BindPath(k, bindings[i]), c))
  }

  predicate HavePaths(keys: seq<KeySpec>) { forall i | 0 <= i < |keys| :: keys[i].path != [] }

  function ClosedFileSettings(keys: seq<KeySpec>, scope: LayerScope, only: Option<set<string>>): (list: seq<Setting>)
    requires HavePaths(keys)
    ensures forall s | s in list :: s.path != []
  {
    if keys == [] then []
    else
      var c := ClosedOfNothing(keys[0], scope);
      var mine := if Selected(only, keys[0].section) && c.Some?
                  then SwitchSettings(keys[0], c.value, ClosedBindings(keys[0])) else [];
      mine + ClosedFileSettings(keys[1..], scope, only)
  }

  lemma {:induction false} PathsConcat(a: seq<Setting>, b: seq<Setting>)
    requires forall s | s in a + b :: s.path != []
    ensures (forall s | s in a :: s.path != []) && (forall s | s in b :: s.path != [])
  {
    forall s | s in a || s in b ensures s.path != [] {
      assert s in a + b;
    }
  }

  lemma {:induction false} SetAllConcat(root: map<Key, Value>, a: seq<Setting>, b: seq<Setting>)
    requires forall s | s in a + b :: s.path != []
    ensures (forall s | s in a :: s.path != []) && (forall s | s in b :: s.path != [])
    ensures SetAll(root, a + b) == SetAll(SetAll(root, a), b)
  {
    PathsConcat(a, b);
    if b == [] {
      assert a + b == a;
    } else {
      var n := |b| - 1;
      var ab, front := a + b, a + b[..n];
      assert ab[..|ab| - 1] == front && ab[|ab| - 1] == b[n];
      forall s | s in front ensures s.path != [] { assert s in ab; }
      SetAllConcat(root, a, b[..n]);
      assert SetAll(root, ab) == SetIn(SetAll(root, front), b[n].path, b[n].value);
    }
  }

  method SetEach(root: map<Key, Value>, list: seq<Setting>) returns (out: map<Key, Value>)
    requires forall s | s in list :: s.path != []
    ensures out == SetAll(root, list)
  {
    out := root;
    for i := 0 to |list|
      invariant out == SetAll(root, list[..i])
    {
      out := SetIn(out, list[i].path, list[i].value);
      assert list[..i + 1][..i] == list[..i];
    }
    assert list[..|list|] == list;
  }

  lemma {:induction false} ClosedFileStep(keys: seq<KeySpec>, scope: LayerScope, only: Option<set<string>>,
                                          root: map<Key, Value>)
    requires keys != [] && HavePaths(keys)
    ensures HavePaths(keys[1..])
    ensures var c, rest := ClosedOfNothing(keys[0], scope), ClosedFileSettings(keys[1..], scope, only);
            SetAll(root, ClosedFileSettings(keys, scope, only)) ==
              if Selected(only, keys[0].section) && c.Some?
              then SetAll(SetAll(root, SwitchSettings(keys[0], c.value, ClosedBindings(keys[0]))), rest)
              else SetAll(root, rest)
  {
    var c, rest := ClosedOfNothing(keys[0], scope), ClosedFileSettings(keys[1..], scope, only);
    if Selected(only, keys[0].section) && c.Some? {
      SetAllConcat(root, SwitchSettings(keys[0], c.value, ClosedBindings(keys[0])), rest);
    } else {
      assert ClosedFileSettings(keys, scope, only) == [] + rest == rest;
    }
  }

  /** `closed_file`: what a file that does not parse contributes. */
  method ClosedFile(src: Source, only: Option<set<string>>) returns (out: map<Key, Value>)
    requires HavePaths(KeysOf(src.schema.keys, src.file))
    ensures out == SetAll(map[], ClosedFileSettings(KeysOf(src.schema.keys, src.file), src.scope, only))
  {
    var keys := KeysOf(src.schema.keys, src.file);
    out := map[];
    for n := 0 to |keys|
      invariant SetAll(map[], ClosedFileSettings(keys, src.scope, only))
             == SetAll(out, ClosedFileSettings(keys[n..], src.scope, only))
    {
      assert keys[n..][1..] == keys[n + 1..];
      ClosedFileStep(keys[n..], src.scope, only, out);
      var c := ClosedOfNothing(keys[n], src.scope);
      if Selected(only, keys[n].section) && c.Some? {
        out := SetEach(out, SwitchSettings(keys[n], c.value, ClosedBindings(keys[n])));
      }
    }
  }

  lemma {:induction false} ClosedEntriesStep(keys: seq<KeySpec>, scope: LayerScope, sec: SectionSpec,
                                             names: seq<string>, root: map<Key, Value>)
    requires keys != []
    ensures var c, rest := ClosedOfNothing(keys[0], scope), ClosedEntrySettings(keys[1..], scope, sec, names);
            SetAll(root, ClosedEntrySettings(keys, scope, sec, names)) ==
              if InClosedEntry(keys[0], sec) && c.Some?
              then SetAll(SetAll(root, EntrySettings(keys[0], c.value, EntryNames(keys[0], names))), rest)
              else SetAll(root, rest)
  {
    var c, rest := ClosedOfNothing(keys[0], scope), ClosedEntrySettings(keys[1..], scope, sec, names);
    if InClosedEntry(keys[0], sec) && c.Some? {
      SetAllConcat(root, EntrySettings(keys[0], c.value, EntryNames(keys[0], names)), rest);
    } else {
      assert ClosedEntrySettings(keys, scope, sec, names) == [] + rest == rest;
    }
  }

  /** `closed_entries`: a per-entry section closed whole. */
  method ClosedEntries(keys: seq<KeySpec>, scope: LayerScope, sec: SectionSpec, names: seq<string>)
    returns (out: map<Key, Value>)
    ensures out == SetAll(map[], ClosedEntrySettings(keys, scope, sec, names))
  {
    out := map[];
    for n := 0 to |keys|
      invariant SetAll(map[], ClosedEntrySettings(keys, scope, sec, names))
             == SetAll(out, ClosedEntrySettings(keys[n..], scope, sec, names))
    {
      ClosedEntriesStep(keys[n..], scope, sec, names, out);
      assert keys[n..][1..] == keys[n + 1..];
      var c := ClosedOfNothing(keys[n], scope);
      if InClosedEntry(keys[n], sec) && c.Some? {
        out := SetEach(out, EntrySettings(keys[n], c.value, EntryNames(keys[n], names)));
      }
    }
  }

  // ----- one top-level key -----

  function OwnerOf(sections: seq<SectionSpec>, file: string, top: string): (found: Option<SectionSpec>)
    ensures found.Some? ==> found.value in sections && found.value.file == file && top in found.value.top
  {
    if sections == [] then None
    else if sections[0].file == file && top in sections[0].top then Some(sections[0])
    else OwnerOf(sections[1..], file, top)
  }

  function RetiredPath(name: string, top: string): Option<Path>
  {
    var path := Split(name, '.');
    if path[0] == top && |path| > 1 then Some(path[1..]) else None
  }

  /** `strip_retired`: the value without the retired keys below it. */
  function StripRetired(retired: seq<string>, top: string, v: Value): Value
  {
    if retired == [] then v
    else
      var path := RetiredPath(retired[0], top);
      StripRetired(retired[1..], top, if path.Some? then RemoveAt(v, path.value) else v)
  }

  predicate HoldsRetired(retired: seq<string>, top: string, v: Value)
  {
    exists i | 0 <= i < |retired| ::
      RetiredPath(retired[i], top).Some? && TextAt(v, RetiredPath(retired[i], top).value).Some?
  }

  /** What one top-level key leaves: the value that would load, the units that fell back, and its
      closed reading when the whole key is dropped. */
  datatype Outcome = Outcome(kept: Value, units: set<string>, closed: Option<Value>)

  predicate NameAllowed(sec: SectionSpec, key: Key) { key.Text? && (sec.entry.Some? ==> sec.entry.value(key.s)) }

  predicate NameRefused(sec: SectionSpec, key: Key) { key.Text? && sec.entry.Some? && !sec.entry.value(key.s) }

  predicate EntryPasses(keys: seq<KeySpec>, scope: LayerScope, sec: SectionSpec, top: string, key: Key, v: Value)
  {
    NameAllowed(sec, key) && Passes(keys, scope, [top, key.s], v)
  }

  /** What an entry contributes: itself, or its closed reading, or nothing. */
  function EntryKept(keys: seq<KeySpec>, scope: LayerScope, sec: SectionSpec, top: string, key: Key,
                     v: Value): Option<Value>
  {
    if EntryPasses(keys, scope, sec, top, key, v) then Some(v)
    else if NameAllowed(sec, key) then Closed(keys, scope, [top, key.s], v)
    else None
  }

  function UnitOf(sec: SectionSpec, key: Key): string { sec.name + "." + Shown(key) }

  function ItemUnit(sec: SectionSpec, i: nat): string { sec.name + "[" + Decimal(i) + "]" }

  function AllowedNames(sec: SectionSpec, order: seq<Key>): seq<string>
  {
    if order == [] then []
    else
      var last := order[|order| - 1];
      AllowedNames(sec, order[..|order| - 1]) + (if NameAllowed(sec, last) then [last.s] else [])
  }

  function EntriesOutcome(src: Source, keys: seq<KeySpec>, sec: SectionSpec, top: string, m: map<Key, Value>): Outcome
  {
    var kept := map key | key in m && EntryKept(keys, src.scope, sec, top, key, m[key]).Some?
                :: EntryKept(keys, src.scope, sec, top, key, m[key]).value;
    var failed := set key | key in m && !EntryPasses(keys, src.scope, sec, top, key, m[key]) :: UnitOf(sec, key);
    if exists key | key in m :: NameRefused(sec, key)
    then Outcome(Mapping(kept), failed + {sec.name},
                 Some(Mapping(SetAll(map[],
                   ClosedEntrySettings(keys, src.scope, sec, AllowedNames(sec, src.order(m)))))))
    else Outcome(Mapping(kept), failed, None)
  }

  function ItemKept(keys: seq<KeySpec>, scope: LayerScope, top: string, item: Value): seq<Value>
  {
    if Passes(keys, scope, [top], Sequence([item])) then [item]
    else
      var c := Closed(keys, scope, [top], Sequence([item]));
      if c.Some? && c.value.Sequence? then c.value.items else []
  }

  function ItemsKept(keys: seq<KeySpec>, scope: LayerScope, top: string, items: seq<Value>): seq<Value>
  {
    if items == [] then []
    else ItemsKept(keys, scope, top, items[..|items| - 1]) + ItemKept(keys, scope, top, items[|items| - 1])
  }

  function ItemsOutcome(src: Source, keys: seq<KeySpec>, sec: SectionSpec, top: string, items: seq<Value>): Outcome
  {
    Outcome(Sequence(ItemsKept(keys, src.scope, top, items)),
            set i | 0 <= i < |items| && !Passes(keys, src.scope, [top], Sequence([items[i]])) :: ItemUnit(sec, i),
            None)
  }

  function WholeOutcome(src: Source, keys: seq<KeySpec>, sec: SectionSpec, top: string, v: Value): Outcome
  {
    if Passes(keys, src.scope, [top], v) then Outcome(v, {}, None)
    else Outcome(v, {sec.name}, Closed(keys, src.scope, [top], v))
  }

  function TopOutcome(src: Source, sec: SectionSpec, top: string, raw: Value): Outcome
  {
    var keys := KeysOf(src.schema.keys, src.file);
    var v := StripRetired(RetiredIn(src), top, raw);
    if sec.perEntry && v.Mapping? then EntriesOutcome(src, keys, sec, top, v.m)
    else if sec.perEntry && v.Sequence? then ItemsOutcome(src, keys, sec, top, v.items)
    else WholeOutcome(src, keys, sec, top, v)
  }

  /** The retired keys of the file's kind. */
  function RetiredIn(src: Source): (names: seq<string>)
    ensures forall n :: n in names <==> src.file in src.schema.retired && n in src.schema.retired[src.file]
  {
    if src.file in src.schema.retired then src.schema.retired[src.file] else []
  }

  // ----- the whole file -----

  function Owner(src: Source, key: Key): Option<SectionSpec>
  {
    if key.Text? then OwnerOf(src.schema.sections, src.file, key.s) else None
  }

  predicate Read(src: Source, only: Option<set<string>>, key: Key)
  {
    Owner(src, key).Some? && Selected(only, Owner(src, key).value.name)
  }

  function OutcomeOf(src: Source, root: map<Key, Value>, key: Key): Outcome
    requires key in root && Owner(src, key).Some?
  {
    TopOutcome(src, Owner(src, key).value, key.s, root[key])
  }

  /** Every unit that fell back, in the sections that are read. */
  function Failed(src: Source, root: map<Key, Value>, only: Option<set<string>>): set<string>
  {
    set key, u | key in root && Read(src, only, key) && u in OutcomeOf(src, root, key).units :: u
  }

  /** The top-level key is dropped with its section, and what its closed reading leaves. */
  predicate Loads(src: Source, root: map<Key, Value>, only: Option<set<string>>, key: Key)
  {
    && key in root && Read(src, only, key)
    && (OutcomeOf(src, root, key).closed.Some? || Owner(src, key).value.name !in Failed(src, root, only))
  }

  /** The layer a file becomes. */
  function Accepted(src: Source, root: map<Key, Value>, only: Option<set<string>>): map<Key, Value>
  {
    map key | key in root && Loads(src, root, only, key) ::
      var o := OutcomeOf(src, root, key);
      if o.closed.Some? then o.closed.value else o.kept
  }

  /** The file has nothing to report. */
  predicate Clean(src: Source, root: map<Key, Value>, only: Option<set<string>>)
  {
    forall key | key in root ::
      && Owner(src, key).Some?
      && (Read(src, only, key) ==>
            !HoldsRetired(RetiredIn(src), key.s, root[key]) && OutcomeOf(src, root, key).units == {})
  }

  // ----- the loops that compute it -----

  /** What the entries walked so far have left of the mapping. */
  ghost predicate KeptSoFar(src: Source, keys: seq<KeySpec>, sec: SectionSpec, top: string,
                            m: map<Key, Value>, done: set<Key>, kept: map<Key, Value>)
  {
    && (forall key :: key in kept <==>
          key in m && (key in done ==> EntryKept(keys, src.scope, sec, top, key, m[key]).Some?))
    && (forall key | key in kept ::
          kept[key] == if key in done then EntryKept(keys, src.scope, sec, top, key, m[key]).value else m[key])
  }

  method CheckEntry(src: Source, keys: seq<KeySpec>, sec: SectionSpec, top: string, key: Key, v: Value,
                    kept: map<Key, Value>)
    returns (now: map<Key, Value>, passes: bool)
    requires Lists(src.order) && key in kept && kept[key] == v
    ensures passes <==> EntryPasses(keys, src.scope, sec, top, key, v)
    ensures var left := EntryKept(keys, src.scope, sec, top, key, v);
            now == if left.Some? then kept[key := left.value] else kept - {key}
  {
    var path := [top, Shown(key)];
    var named := NameAllowed(sec, key);
    passes := false;
    if named {
      var errs := CheckTree(keys, src.scope, src.order, path, v, []);
      passes := errs == [];
    }
    now := kept;
    if !passes {
      var c := if named then Closed(keys, src.scope, path, v) else None;
      now := if c.Some? then now[key := c.value] else now - {key};
    }
  }

  lemma {:induction false} KeptStep(src: Source, keys: seq<KeySpec>, sec: SectionSpec, top: string, m: map<Key, Value>,
                                    done: set<Key>, kept: map<Key, Value>, key: Key, now: map<Key, Value>)
    requires KeptSoFar(src, keys, sec, top, m, done, kept) && key in m && key !in done
    requires var left := EntryKept(keys, src.scope, sec, top, key, m[key]);
             now == if left.Some? then kept[key := left.value] else kept - {key}
    ensures KeptSoFar(src, keys, sec, top, m, done + {key}, now)
  {
  }

  function FailedAmong(src: Source, keys: seq<KeySpec>, sec: SectionSpec, top: string, m: map<Key, Value>,
                       done: set<Key>): set<string>
  {
    set key | key in done && key in m && !EntryPasses(keys, src.scope, sec, top, key, m[key]) :: UnitOf(sec, key)
  }

  /** What the walk of a section's entries holds after the keys in `done`. */
  ghost predicate Walked(src: Source, keys: seq<KeySpec>, sec: SectionSpec, top: string, m: map<Key, Value>,
                         before: seq<Key>, kept: map<Key, Value>, names: seq<string>, failed: set<string>,
                         refused: bool)
  {
    var done := set k | k in before;
    && KeptSoFar(src, keys, sec, top, m, done, kept)
    && names == AllowedNames(sec, before)
    && failed == FailedAmong(src, keys, sec, top, m, done)
    && (refused <==> exists k | k in done :: NameRefused(sec, k))
  }

  lemma {:induction false} FailedNext(src: Source, keys: seq<KeySpec>, sec: SectionSpec, top: string,
                                      m: map<Key, Value>, done: set<Key>, key: Key)
    requires key in m
    ensures FailedAmong(src, keys, sec, top, m, done + {key}) == FailedAmong(src, keys, sec, top, m, done)
              + (if EntryPasses(keys, src.scope, sec, top, key, m[key]) then {} else {UnitOf(sec, key)})
  {
  }

  lemma {:induction false} WalkOne(src: Source, keys: seq<KeySpec>, sec: SectionSpec, top: string, m: map<Key, Value>,
                                   before: seq<Key>, kept: map<Key, Value>, names: seq<string>, failed: set<string>,
                                   refused: bool, key: Key, after: seq<Key>, now: map<Key, Value>, names': seq<string>,
                                   failed': set<string>, refused': bool)
    requires Walked(src, keys, sec, top, m, before, kept, names, failed, refused)
    requires key in m && key !in before && after == before + [key]
    requires var left := EntryKept(keys, src.scope, sec, top, key, m[key]);
             now == if left.Some? then kept[key := left.value] else kept - {key}
    requires names' == names + (if NameAllowed(sec, key) then [key.s] else [])
    requires failed' == failed
              + (if EntryPasses(keys, src.scope, sec, top, key, m[key]) then {} else {UnitOf(sec, key)})
    requires refused' == (refused || NameRefused(sec, key))
    ensures Walked(src, keys, sec, top, m, after, now, names', failed', refused')
  {
    var done := set k | k in before;
    assert (set k | k in after) == done + {key};
    KeptStep(src, keys, sec, top, m, done, kept, key, now);
    NamesNext(sec, before, key);
    FailedNext(src, keys, sec, top, m, done, key);
  }

  lemma {:induction false} NamesNext(sec: SectionSpec, before: seq<Key>, key: Key)
    ensures AllowedNames(sec, before + [key])
         == AllowedNames(sec, before) + (if NameAllowed(sec, key) then [key.s] else [])
  {
    assert (before + [key])[..|before|] == before;
  }

  lemma {:induction false} WalkedAll(src: Source, keys: seq<KeySpec>, sec: SectionSpec, top: string,
                                     m: map<Key, Value>, todo: seq<Key>, kept: map<Key, Value>, names: seq<string>,
                                     failed: set<string>, refused: bool)
    requires Walked(src, keys, sec, top, m, todo, kept, names, failed, refused)
    requires todo == src.order(m) && forall k :: k in todo <==> k in m
    ensures EntriesOutcome(src, keys, sec, top, m) ==
              if refused
              then Outcome(Mapping(kept), failed + {sec.name},
                           Some(Mapping(SetAll(map[], ClosedEntrySettings(keys, src.scope, sec, names)))))
              else Outcome(Mapping(kept), failed, None)
  {
    assert (set k | k in todo) == m.Keys;
    SameEntries(src, keys, sec, top, m, m.Keys, kept);
    assert FailedAmong(src, keys, sec, top, m, m.Keys)
        == set key | key in m && !EntryPasses(keys, src.scope, sec, top, key, m[key]) :: UnitOf(sec, key);
  }

  /** The entries not walked yet are as they were. */
  ghost predicate Untouched(m: map<Key, Value>, before: seq<Key>, kept: map<Key, Value>)
  {
    forall k | k in m && k !in before :: k in kept && kept[k] == m[k]
  }

  lemma {:induction false} StaysUntouched(m: map<Key, Value>, before: seq<Key>, kept: map<Key, Value>, key: Key,
                                          now: map<Key, Value>)
    requires Untouched(m, before, kept) && forall k | k in kept && k != key :: k in now && now[k] == kept[k]
    ensures Untouched(m, before + [key], now)
  {
  }

  lemma {:induction false} WalkedNone(src: Source, keys: seq<KeySpec>, sec: SectionSpec, top: string,
                                      m: map<Key, Value>, none: seq<Key>)
    requires none == []
    ensures Walked(src, keys, sec, top, m, none, m, [], {}, false) && Untouched(m, none, m)
  {
  }

  /** The body of the loop over the entries. */
  method WalkEntry(src: Source, keys: seq<KeySpec>, sec: SectionSpec, top: string, m: map<Key, Value>,
                   ghost before: seq<Key>, key: Key, ghost after: seq<Key>,
                   kept: map<Key, Value>, names: seq<string>, failed: set<string>, refused: bool)
    returns (now: map<Key, Value>, names': seq<string>, failed': set<string>, refused': bool)
    requires Lists(src.order) && key in m && key !in before && after == before + [key] && Untouched(m, before, kept)
    requires Walked(src, keys, sec, top, m, before, kept, names, failed, refused)
    ensures Walked(src, keys, sec, top, m, after, now, names', failed', refused') && Untouched(m, after, now)
  {
    var passes;
    now, passes := CheckEntry(src, keys, sec, top, key, m[key], kept);
    names' := names + (if NameAllowed(sec, key) then [key.s] else []);
    failed' := failed + (if passes then {} else {UnitOf(sec, key)});
    refused' := refused || NameRefused(sec, key);
    WalkOne(src, keys, sec, top, m, before, kept, names, failed, refused, key, after, now, names', failed', refused');
    StaysUntouched(m, before, kept, key, now);
  }

  lemma {:induction false} NextKey(todo: seq<Key>, i: nat, before: seq<Key>, after: seq<Key>)
    requires Distinct(todo) && i < |todo| && before == todo[..i] && after == todo[..i + 1]
    ensures todo[i] in todo && todo[i] !in before && after == before + [todo[i]]
  {
  }

  lemma {:induction false} ListsOnce(order: map<Key, Value> -> seq<Key>, m: map<Key, Value>, todo: seq<Key>)
    requires Lists(order) && todo == order(m)
    ensures Distinct(todo) && forall k :: k in todo <==> k in m
  {
  }

  /** The loop over the entries. */
  method WalkEntries(src: Source, keys: seq<KeySpec>, sec: SectionSpec, top: string, m: map<Key, Value>, todo: seq<Key>)
    returns (kept: map<Key, Value>, names: seq<string>, failed: set<string>, refused: bool)
    requires Lists(src.order) && Distinct(todo) && forall k | k in todo :: k in m
    ensures Walked(src, keys, sec, top, m, todo, kept, names, failed, refused)
  {
    kept, names, failed, refused := m, [], {}, false;
    ghost var before: seq<Key> := [];
    WalkedNone(src, keys, sec, top, m, before);
    for i := 0 to |todo|
      invariant before == todo[..i]
      invariant Walked(src, keys, sec, top, m, before, kept, names, failed, refused)
      invariant Untouched(m, before, kept)
    {
      ghost var after := todo[..i + 1];
      NextKey(todo, i, before, after);
      kept, names, failed, refused :=
        WalkEntry(src, keys, sec, top, m, before, todo[i], after, kept, names, failed, refused);
      before := after;
    }
    assert before == todo;
  }

  method CheckEntries(src: Source, keys: seq<KeySpec>, sec: SectionSpec, top: string, m: map<Key, Value>)
    returns (o: Outcome)
    requires Lists(src.order)
    ensures o == EntriesOutcome(src, keys, sec, top, m)
  {
    var todo := src.order(m);
    ListsOnce(src.order, m, todo);
    var kept, names, failed, refused := WalkEntries(src, keys, sec, top, m, todo);
    WalkedAll(src, keys, sec, top, m, todo, kept, names, failed, refused);
    if refused {
      var closed := ClosedEntries(keys, src.scope, sec, names);
      o := Outcome(Mapping(kept), failed + {sec.name}, Some(Mapping(closed)));
    } else {
      o := Outcome(Mapping(kept), failed, None);
    }
  }

  lemma {:induction false} SameEntries(src: Source, keys: seq<KeySpec>, sec: SectionSpec, top: string,
                                       m: map<Key, Value>, done: set<Key>, kept: map<Key, Value>)
    requires done == m.Keys && KeptSoFar(src, keys, sec, top, m, done, kept)
    ensures Mapping(kept) == EntriesOutcome(src, keys, sec, top, m).kept
  {
    var whole := EntriesOutcome(src, keys, sec, top, m).kept.m;
    assert kept.Keys == whole.Keys;
    assert kept == whole;
  }

  method CheckItems(src: Source, keys: seq<KeySpec>, sec: SectionSpec, top: string, items: seq<Value>)
    returns (o: Outcome)
    requires Lists(src.order)
    ensures o == ItemsOutcome(src, keys, sec, top, items)
  {
    var kept, failed := [], {};
    for i := 0 to |items|
      invariant kept == ItemsKept(keys, src.scope, top, items[..i])
      invariant failed
             == set j | 0 <= j < i && !Passes(keys, src.scope, [top], Sequence([items[j]])) :: ItemUnit(sec, j)
    {
      var errs := CheckTree(keys, src.scope, src.order, [top], Sequence([items[i]]), []);
      assert items[..i + 1][..i] == items[..i];
      kept := kept + ItemKept(keys, src.scope, top, items[i]);
      if errs != [] {
        failed := failed + {ItemUnit(sec, i)};
      }
    }
    assert items[..|items|] == items;
    o := Outcome(Sequence(kept), failed, None);
  }

  method CheckTop(src: Source, sec: SectionSpec, top: string, raw: Value) returns (o: Outcome)
    requires Lists(src.order)
    ensures o == TopOutcome(src, sec, top, raw)
  {
    var keys := KeysOf(src.schema.keys, src.file);
    var v := StripRetired(RetiredIn(src), top, raw);
    if sec.perEntry && v.Mapping? {
      o := CheckEntries(src, keys, sec, top, v.m);
    } else if sec.perEntry && v.Sequence? {
      o := CheckItems(src, keys, sec, top, v.items);
    } else {
      var errs := CheckTree(keys, src.scope, src.order, [top], v, []);
      o := if errs == [] then Outcome(v, {}, None)
           else Outcome(v, {sec.name}, Closed(keys, src.scope, [top], v));
    }
  }

  /** What the walk has gathered from the top-level keys it has passed. */
  ghost predicate Gathered(src: Source, root: map<Key, Value>, only: Option<set<string>>, before: seq<Key>,
                           outcomes: map<Key, Outcome>, failed: set<string>, clean: bool)
  {
    && (forall k | k in before :: k in root)
    && (forall k :: k in outcomes <==> k in before && Read(src, only, k))
    && (forall k | k in outcomes :: k in root && outcomes[k] == OutcomeOf(src, root, k))
    && (forall u :: u in failed <==> exists k | k in outcomes :: u in outcomes[k].units)
    && (clean <==> forall k | k in before :: NothingToReport(src, root, only, k))
  }

  predicate NothingToReport(src: Source, root: map<Key, Value>, only: Option<set<string>>, key: Key)
    requires key in root
  {
    && Owner(src, key).Some?
    && (Read(src, only, key) ==>
          !HoldsRetired(RetiredIn(src), key.s, root[key]) && OutcomeOf(src, root, key).units == {})
  }

  lemma {:induction false} GatherOne(src: Source, root: map<Key, Value>, only: Option<set<string>>, before: seq<Key>,
                                     outcomes: map<Key, Outcome>, failed: set<string>, clean: bool, key: Key,
                                     after: seq<Key>, now: map<Key, Outcome>, units: set<string>, good: bool)
    requires Gathered(src, root, only, before, outcomes, failed, clean) && key in root && key !in before
    requires after == before + [key]
    requires good <==> NothingToReport(src, root, only, key)
    requires now == if Read(src, only, key) then outcomes[key := OutcomeOf(src, root, key)] else outcomes
    requires units == if Read(src, only, key) then failed + OutcomeOf(src, root, key).units else failed
    ensures Gathered(src, root, only, after, now, units, clean && good)
  {
    forall u ensures u in units <==> exists k | k in now :: u in now[k].units {
      if Read(src, only, key) && u in OutcomeOf(src, root, key).units {
        assert key in now && u in now[key].units;
      } else if u in failed {
        var k :| k in outcomes && u in outcomes[k].units;
        assert k in now && u in now[k].units;
      }
    }
  }

  function Assemble(src: Source, outcomes: map<Key, Outcome>, failed: set<string>): map<Key, Value>
  {
    map k | k in outcomes && Owner(src, k).Some? &&
            (outcomes[k].closed.Some? || Owner(src, k).value.name !in failed) ::
      if outcomes[k].closed.Some? then outcomes[k].closed.value else outcomes[k].kept
  }

  lemma {:induction false} GatheredNone(src: Source, root: map<Key, Value>, only: Option<set<string>>, none: seq<Key>)
    requires none == []
    ensures Gathered(src, root, only, none, map[], {}, true)
  {
  }

  lemma {:induction false} GatheredFailed(src: Source, root: map<Key, Value>, only: Option<set<string>>,
                                          todo: seq<Key>, outcomes: map<Key, Outcome>, failed: set<string>,
                                          clean: bool)
    requires Gathered(src, root, only, todo, outcomes, failed, clean) && forall k :: k in todo <==> k in root
    ensures failed == Failed(src, root, only)
  {
    forall u ensures u in failed <==> u in Failed(src, root, only) {
    }
  }

  lemma {:induction false} GatheredClean(src: Source, root: map<Key, Value>, only: Option<set<string>>, todo: seq<Key>,
                                         outcomes: map<Key, Outcome>, failed: set<string>, clean: bool)
    requires Gathered(src, root, only, todo, outcomes, failed, clean) && forall k :: k in todo <==> k in root
    ensures clean <==> Clean(src, root, only)
  {
  }

  lemma {:induction false} Assembled(src: Source, root: map<Key, Value>, only: Option<set<string>>,
                                     outcomes: map<Key, Outcome>, failed: set<string>)
    requires failed == Failed(src, root, only)
    requires forall k :: k in outcomes <==> k in root && Read(src, only, k)
    requires forall k | k in outcomes :: k in root && Read(src, only, k) && outcomes[k] == OutcomeOf(src, root, k)
    ensures Assemble(src, outcomes, failed) == Accepted(src, root, only)
  {
    assert Assemble(src, outcomes, failed).Keys == Accepted(src, root, only).Keys;
  }

  lemma {:induction false} GatheredAll(src: Source, root: map<Key, Value>, only: Option<set<string>>, todo: seq<Key>,
                                       outcomes: map<Key, Outcome>, failed: set<string>, clean: bool)
    requires Gathered(src, root, only, todo, outcomes, failed, clean) && forall k :: k in todo <==> k in root
    ensures failed == Failed(src, root, only)
    ensures clean <==> Clean(src, root, only)
    ensures Assemble(src, outcomes, failed) == Accepted(src, root, only)
  {
    GatheredFailed(src, root, only, todo, outcomes, failed, clean);
    GatheredClean(src, root, only, todo, outcomes, failed, clean);
    Assembled(src, root, only, outcomes, failed);
  }

  /** `check`: walk the file's top-level keys, then drop what failed and add the closed readings. */
  method Check(src: Source, root: map<Key, Value>, only: Option<set<string>>)
    returns (accepted: map<Key, Value>, failed: set<string>, clean: bool)
    requires Lists(src.order)
    ensures accepted == Accepted(src, root, only)
    ensures failed == Failed(src, root, only)
    ensures clean <==> Clean(src, root, only)
  {
    var todo := src.order(root);
    ListsOnce(src.order, root, todo);
    var outcomes: map<Key, Outcome> := map[];
    failed, clean := {}, true;
    ghost var before: seq<Key> := [];
    GatheredNone(src, root, only, before);
    for i := 0 to |todo|
      invariant before == todo[..i]
      invariant Gathered(src, root, only, before, outcomes, failed, clean)
    {
      ghost var after := todo[..i + 1];
      NextKey(todo, i, before, after);
      var now, units, good := CheckOne(src, root, only, todo[i], outcomes, failed);
      GatherOne(src, root, only, before, outcomes, failed, clean, todo[i], after, now, units, good);
      outcomes, failed, clean := now, units, clean && good;
      before := after;
    }
    assert before == todo;
    GatheredAll(src, root, only, todo, outcomes, failed, clean);
    accepted := Assemble(src, outcomes, failed);
  }

  method CheckOne(src: Source, root: map<Key, Value>, only: Option<set<string>>, key: Key,
                  outcomes: map<Key, Outcome>, failed: set<string>)
    returns (now: map<Key, Outcome>, units: set<string>, good: bool)
    requires Lists(src.order) && key in root
    ensures good <==> NothingToReport(src, root, only, key)
    ensures now == if Read(src, only, key) then outcomes[key := OutcomeOf(src, root, key)] else outcomes
    ensures units == if Read(src, only, key) then failed + OutcomeOf(src, root, key).units else failed
  {
    now, units, good := outcomes, failed, true;
    var sec := Owner(src, key);
    if sec.None? {
      good := false;
    } else if Selected(only, sec.value.name) {
      var o := CheckTop(src, sec.value, key.s, root[key]);
      now, units := outcomes[key := o], failed + o.units;
      good := !HoldsRetired(RetiredIn(src), key.s, root[key]) && o.units == {};
    }
  }
}
