/** What a checked file is worth: what is reported, what falls back, and what loads (`load.rs`). */
module SettingsSound {
  import opened Basics
  import opened SettingsValues
  import opened SettingsSchema
  import opened SettingsLoad
  import opened SettingsPaths
  import opened SettingsLayers

  // ----- a value that passes, part by part -----

  /** No key is stored above `q` below `path`. */
  predicate Unowned(keys: seq<KeySpec>, path: Path, q: Path)
  {
    forall i | 0 <= i < |q| :: FindKey(keys, path + q[..i]).None?
  }

  /** What the schema asks of the part `x` at `at`: a key's own value is admitted and accepted, and anything
      else leads on to a key, by text. */
  predicate PartPasses(keys: seq<KeySpec>, scope: LayerScope, at: Path, x: Value)
  {
    match FindKey(keys, at)
    case Some(k) => Admits(scope, k.scope) && k.accepts(x)
    case None => Deeper(keys, at) && (x.Null? || (x.Mapping? && forall key | key in x.m :: key.Text?))
  }

  lemma {:induction false} UnownedBelow(keys: seq<KeySpec>, path: Path, q: Path, next: Path)
    requires q != [] && next == path + [q[0]]
    ensures next + q[1..] == path + q
    ensures Unowned(keys, path, q) <==> FindKey(keys, path).None? && Unowned(keys, next, q[1..])
  {
    assert path + q[..0] == path;
    forall i | 0 <= i < |q[1..]| ensures next + q[1..][..i] == path + q[..i + 1] {}
    if FindKey(keys, path).None? && Unowned(keys, next, q[1..]) {
      forall i | 0 <= i < |q| ensures FindKey(keys, path + q[..i]).None? {
        if i > 0 { assert next + q[1..][..i - 1] == path + q[..i]; }
      }
    }
    if Unowned(keys, path, q) {
      forall i | 0 <= i < |q[1..]| ensures FindKey(keys, next + q[1..][..i]).None? {
        assert FindKey(keys, path + q[..i + 1]).None?;
      }
    }
  }

  lemma {:induction false} PassesPart(keys: seq<KeySpec>, scope: LayerScope, path: Path, v: Value, q: Path, x: Value)
    requires Passes(keys, scope, path, v) && TextAt(v, q) == Some(x) && Unowned(keys, path, q)
    ensures PartPasses(keys, scope, path + q, x)
    decreases |q|
  {
    if q == [] {
      assert path + q == path;
    } else {
      var next := path + [q[0]];
      UnownedBelow(keys, path, q, next);
      PassesPart(keys, scope, next, v.m[Text(q[0])], q[1..], x);
    }
  }

  /** Every part of the value that no key is stored above passes. */
  ghost predicate PartsPass(keys: seq<KeySpec>, scope: LayerScope, path: Path, v: Value)
  {
    forall q, x | TextAt(v, q) == Some(x) && Unowned(keys, path, q) :: PartPasses(keys, scope, path + q, x)
  }

  lemma {:induction false} PartsBelow(keys: seq<KeySpec>, scope: LayerScope, path: Path, v: Value, seg: string)
    requires PartsPass(keys, scope, path, v) && FindKey(keys, path).None? && v.Mapping? && Text(seg) in v.m
    ensures PartsPass(keys, scope, path + [seg], v.m[Text(seg)])
  {
    var next, below := path + [seg], v.m[Text(seg)];
    forall q, x | TextAt(below, q) == Some(x) && Unowned(keys, next, q) ensures PartPasses(keys, scope, next + q, x) {
      var whole := [seg] + q;
      assert whole[1..] == q;
      UnownedBelow(keys, path, whole, next);
      assert TextAt(v, whole) == Some(x);
    }
  }

  lemma {:induction false} PassesIfParts(keys: seq<KeySpec>, scope: LayerScope, path: Path, v: Value)
    requires PartsPass(keys, scope, path, v)
    ensures Passes(keys, scope, path, v)
    decreases v
  {
    var none: Path := [];
    assert path + none == path && TextAt(v, none) == Some(v) && Unowned(keys, path, none);
    assert PartPasses(keys, scope, path, v);
    if FindKey(keys, path).None? && v.Mapping? {
      forall key | key in v.m ensures key.Text? && Passes(keys, scope, path + [key.s], v.m[key]) {
        PartsBelow(keys, scope, path, v, key.s);
        PassesIfParts(keys, scope, path + [key.s], v.m[key]);
      }
    }
  }

  /** A value passes exactly when each of its parts does, down to the first key stored on the way. */
  lemma {:induction false} PassesIff(keys: seq<KeySpec>, scope: LayerScope, path: Path, v: Value)
    ensures Passes(keys, scope, path, v) <==> PartsPass(keys, scope, path, v)
  {
    if Passes(keys, scope, path, v) {
      forall q, x | TextAt(v, q) == Some(x) && Unowned(keys, path, q) ensures PartPasses(keys, scope, path + q, x) {
        PassesPart(keys, scope, path, v, q, x);
      }
    } else if PartsPass(keys, scope, path, v) {
      PassesIfParts(keys, scope, path, v);
    }
  }

  // ----- a closed reading, part by part -----

  /** The closed reading of a mapping that no key names. */
  lemma {:induction false} ClosedOfMapping(keys: seq<KeySpec>, scope: LayerScope, path: Path, raw: Value, c: Value)
    requires FindKey(keys, path).None? && Closed(keys, scope, path, raw) == Some(c)
    ensures raw.Mapping? && c.Mapping? && c.m != map[]
    ensures forall key :: key in c.m <==>
              key in raw.m && key.Text? && Closed(keys, scope, path + [key.s], raw.m[key]).Some?
    ensures forall key | key in c.m :: Some(c.m[key]) == Closed(keys, scope, path + [key.s], raw.m[key])
  {
  }

  /** A closed reading holds a value at a key exactly when the layer admits the key and the key has one for
      what the file holds there. */
  lemma {:induction false} ClosedAtKey(keys: seq<KeySpec>, scope: LayerScope, path: Path, raw: Value, q: Path,
                                       k: KeySpec, y: Value)
    requires Unowned(keys, path, q) && FindKey(keys, path + q) == Some(k)
    ensures Closed(keys, scope, path, raw).Some? && TextAt(Closed(keys, scope, path, raw).value, q) == Some(y)
       <==> && Admits(scope, k.scope) && k.failClosed.Some? && TextAt(raw, q).Some?
            && k.failClosed.value(TextAt(raw, q).value) == Some(y)
    decreases |q|
  {
    if q == [] {
      assert path + q == path;
    } else {
      var next := path + [q[0]];
      UnownedBelow(keys, path, q, next);
      if raw.Mapping? && Text(q[0]) in raw.m {
        ClosedAtKey(keys, scope, next, raw.m[Text(q[0])], q[1..], k, y);
        if Closed(keys, scope, next, raw.m[Text(q[0])]).Some? {
          ClosedDescends(keys, scope, path, raw, q[0]);
        }
      }
      if Closed(keys, scope, path, raw).Some? {
        ClosedOfMapping(keys, scope, path, raw, Closed(keys, scope, path, raw).value);
      }
    }
  }

  /** And nothing else: what is above the keys is a mapping by text that is not empty. */
  lemma {:induction false} ClosedAboveKeys(keys: seq<KeySpec>, scope: LayerScope, path: Path, raw: Value, c: Value,
                                           q: Path, y: Value)
    requires Closed(keys, scope, path, raw) == Some(c) && TextAt(c, q) == Some(y)
    requires Unowned(keys, path, q) && FindKey(keys, path + q).None?
    ensures y.Mapping? && y.m != map[] && forall key | key in y.m :: key.Text?
    decreases |q|
  {
    if q == [] {
      assert path + q == path;
      ClosedOfMapping(keys, scope, path, raw, c);
    } else {
      var next := path + [q[0]];
      UnownedBelow(keys, path, q, next);
      ClosedOfMapping(keys, scope, path, raw, c);
      ClosedAboveKeys(keys, scope, next, raw.m[Text(q[0])], c.m[Text(q[0])], q[1..], y);
    }
  }

  // ----- retired keys -----

  /** The path below its top-level key of a retired name. */
  lemma {:induction false} RetiredPathIff(name: string, top: string, p: Path)
    ensures RetiredPath(name, top) == Some(p) <==> p != [] && Split(name, '.') == [top] + p
  {
    var path := Split(name, '.');
    assert path == [path[0]] + path[1..];
    if p != [] && path == [top] + p { assert path[1..] == p; }
  }

  /** Stripping takes what is at the retired paths, and nothing elsewhere. */
  lemma {:induction false} StripExact(retired: seq<string>, top: string, v: Value, q: Path)
    ensures (exists i :: 0 <= i < |retired| && RetiredPath(retired[i], top) == Some(q))
            ==> TextAt(StripRetired(retired, top, v), q) == None
    ensures (forall i | 0 <= i < |retired| && RetiredPath(retired[i], top).Some? ::
               !Related(RetiredPath(retired[i], top).value, q))
            ==> TextAt(StripRetired(retired, top, v), q) == TextAt(v, q)
    ensures TextAt(v, q) == None ==> TextAt(StripRetired(retired, top, v), q) == None
  {
    if retired != [] {
      var path := RetiredPath(retired[0], top);
      var now := if path.Some? then RemoveAt(v, path.value) else v;
      StripExact(retired[1..], top, now, q);
      assert forall i | 1 <= i < |retired| :: retired[1..][i - 1] == retired[i];
      if path.Some? {
        RemovedElsewhere(v, path.value, q);
        RemovedGone(v, path.value);
      }
    }
  }

  lemma {:induction false} NothingRetired(retired: seq<string>, top: string, v: Value)
    requires forall i | 0 <= i < |retired| ::
               RetiredPath(retired[i], top).Some? ==> TextAt(v, RetiredPath(retired[i], top).value).None?
    ensures StripRetired(retired, top, v) == v && !HoldsRetired(retired, top, v)
  {
    if retired != [] {
      var path := RetiredPath(retired[0], top);
      if path.Some? {
        RemoveNothing(v, path.value);
      }
      forall i | 0 <= i < |retired[1..]| && RetiredPath(retired[1..][i], top).Some?
        ensures TextAt(v, RetiredPath(retired[1..][i], top).value).None?
      {
        assert retired[1..][i] == retired[i + 1];
      }
      NothingRetired(retired[1..], top, v);
    }
  }

  // ----- what is reported -----

  /** The entry has a name the section allows and its value passes. */
  predicate EntryGood(keys: seq<KeySpec>, scope: LayerScope, sec: SectionSpec, top: string, e: Key, x: Value)
  {
    e.Text? && (sec.entry.Some? ==> sec.entry.value(e.s)) && Passes(keys, scope, [top, e.s], x)
  }

  /** Nothing is wrong with the value of a top-level key: in a per-entry section each entry of a mapping and
      each item of a list is judged on its own. */
  predicate TopGood(keys: seq<KeySpec>, scope: LayerScope, sec: SectionSpec, top: string, v: Value)
  {
    if sec.perEntry && v.Mapping? then forall e | e in v.m :: EntryGood(keys, scope, sec, top, e, v.m[e])
    else if sec.perEntry && v.Sequence? then
      forall item | item in v.items :: Passes(keys, scope, [top], Sequence([item]))
    else Passes(keys, scope, [top], v)
  }

  /** The key's value holds none of the file's retired keys. */
  predicate NoneRetired(retired: seq<string>, top: string, v: Value)
  {
    forall i | 0 <= i < |retired| && RetiredPath(retired[i], top).Some? ::
      TextAt(v, RetiredPath(retired[i], top).value).None?
  }

  lemma {:induction false} NoUnitsIff(src: Source, sec: SectionSpec, top: string, raw: Value)
    requires NoneRetired(RetiredIn(src), top, raw)
    ensures TopOutcome(src, sec, top, raw).units == {}
       <==> TopGood(KeysOf(src.schema.keys, src.file), src.scope, sec, top, raw)
  {
    var keys := KeysOf(src.schema.keys, src.file);
    NothingRetired(RetiredIn(src), top, raw);
    if sec.perEntry && raw.Mapping? {
      EntryUnitsIff(src, keys, sec, top, raw.m);
    } else if sec.perEntry && raw.Sequence? {
      ItemUnitsIff(src, keys, sec, top, raw.items);
    }
  }

  lemma {:induction false} EntryUnitsIff(src: Source, keys: seq<KeySpec>, sec: SectionSpec, top: string,
                                         m: map<Key, Value>)
    ensures EntriesOutcome(src, keys, sec, top, m).units == {}
       <==> forall e | e in m :: EntryGood(keys, src.scope, sec, top, e, m[e])
  {
    var units := EntriesOutcome(src, keys, sec, top, m).units;
    forall e | e in m && !EntryGood(keys, src.scope, sec, top, e, m[e]) ensures UnitOf(sec, e) in units {
      assert !EntryPasses(keys, src.scope, sec, top, e, m[e]);
    }
    forall e | e in m && NameRefused(sec, e) ensures !EntryGood(keys, src.scope, sec, top, e, m[e]) {}
  }

  lemma {:induction false} ItemUnitsIff(src: Source, keys: seq<KeySpec>, sec: SectionSpec, top: string,
                                        items: seq<Value>)
    ensures ItemsOutcome(src, keys, sec, top, items).units == {}
       <==> forall item | item in items :: Passes(keys, src.scope, [top], Sequence([item]))
  {
    var units := ItemsOutcome(src, keys, sec, top, items).units;
    forall item | item in items && !Passes(keys, src.scope, [top], Sequence([item])) ensures units != {} {
      var i :| 0 <= i < |items| && items[i] == item;
      assert ItemUnit(sec, i) in units;
    }
  }

  /** The section that owns a top-level key is the first of the file that lists it. */
  lemma {:induction false} OwnerIff(sections: seq<SectionSpec>, file: string, top: string)
    ensures OwnerOf(sections, file, top).None?
       <==> forall i | 0 <= i < |sections| :: !(sections[i].file == file && top in sections[i].top)
    ensures OwnerOf(sections, file, top).Some? ==>
              exists i :: 0 <= i < |sections| && OwnerOf(sections, file, top) == Some(sections[i])
                          && sections[i].file == file && top in sections[i].top
                          && forall j | 0 <= j < i :: !(sections[j].file == file && top in sections[j].top)
  {
    if sections != [] {
      var rest := sections[1..];
      OwnerIff(rest, file, top);
      assert forall i | 1 <= i < |sections| :: sections[i] == rest[i - 1];
      if !(sections[0].file == file && top in sections[0].top) && OwnerOf(rest, file, top).Some? {
        var i :| 0 <= i < |rest| && OwnerOf(rest, file, top) == Some(rest[i])
                 && rest[i].file == file && top in rest[i].top
                 && forall j | 0 <= j < i :: !(rest[j].file == file && top in rest[j].top);
        assert OwnerOf(sections, file, top) == Some(sections[i + 1]);
        forall j | 0 <= j < i + 1 ensures !(sections[j].file == file && top in sections[j].top) {
          if j > 0 { assert sections[j] == rest[j - 1]; }
        }
      }
    }
  }

  /** A file is clean exactly when every top-level key has a section and, in the sections that are read, holds
      no retired key and nothing wrong. */
  lemma {:induction false} CleanIff(src: Source, root: map<Key, Value>, only: Option<set<string>>)
    ensures Clean(src, root, only) <==>
              forall key | key in root ::
                && key.Text? && OwnerOf(src.schema.sections, src.file, key.s).Some?
                && var sec := OwnerOf(src.schema.sections, src.file, key.s).value;
                && ((only.Some? ==> sec.name in only.value) ==>
                      && NoneRetired(RetiredIn(src), key.s, root[key])
                      && TopGood(KeysOf(src.schema.keys, src.file), src.scope, sec, key.s, root[key]))
  {
    forall key | key in root && key.Text? && OwnerOf(src.schema.sections, src.file, key.s).Some?
                 && NoneRetired(RetiredIn(src), key.s, root[key])
      ensures OutcomeOf(src, root, key).units == {} <==>
              TopGood(KeysOf(src.schema.keys, src.file), src.scope, Owner(src, key).value, key.s, root[key])
    {
      NoUnitsIff(src, Owner(src, key).value, key.s, root[key]);
    }
    assert forall key | key in root && key.Text? ::
      HoldsRetired(RetiredIn(src), key.s, root[key]) <==> !NoneRetired(RetiredIn(src), key.s, root[key]);
  }

  /** The unit `u` falls back under a top-level key with the value `v`. */
  predicate FallsBack(keys: seq<KeySpec>, scope: LayerScope, sec: SectionSpec, top: string, v: Value, u: string)
  {
    if sec.perEntry && v.Mapping? then
      || (exists e :: e in v.m && !EntryGood(keys, scope, sec, top, e, v.m[e]) && u == sec.name + "." + Shown(e))
      || (u == sec.name && exists e :: e in v.m && e.Text? && sec.entry.Some? && !sec.entry.value(e.s))
    else if sec.perEntry && v.Sequence? then
      exists i :: 0 <= i < |v.items| && !Passes(keys, scope, [top], Sequence([v.items[i]]))
                  && u == sec.name + "[" + Decimal(i) + "]"
    else
      u == sec.name && !Passes(keys, scope, [top], v)
  }

  lemma {:induction false} EntryUnit(src: Source, keys: seq<KeySpec>, sec: SectionSpec, top: string,
                                     m: map<Key, Value>, u: string)
    requires sec.perEntry
    ensures u in EntriesOutcome(src, keys, sec, top, m).units <==> FallsBack(keys, src.scope, sec, top, Mapping(m), u)
  {
    RefusedIff(sec, m);
    assert forall e | e in m :: UnitOf(sec, e) == sec.name + "." + Shown(e);
  }

  lemma {:induction false} UnitsIff(src: Source, sec: SectionSpec, top: string, raw: Value, u: string)
    ensures u in TopOutcome(src, sec, top, raw).units
       <==> FallsBack(KeysOf(src.schema.keys, src.file), src.scope, sec, top, StripRetired(RetiredIn(src), top, raw), u)
  {
    var keys := KeysOf(src.schema.keys, src.file);
    var v := StripRetired(RetiredIn(src), top, raw);
    if sec.perEntry && v.Mapping? {
      EntryUnit(src, keys, sec, top, v.m, u);
    } else if sec.perEntry && v.Sequence? {
      assert forall i | 0 <= i < |v.items| :: ItemUnit(sec, i) == sec.name + "[" + Decimal(i) + "]";
    }
  }

  lemma {:induction false} RefusedIff(sec: SectionSpec, m: map<Key, Value>)
    ensures (exists e :: e in m && NameRefused(sec, e))
       <==> (exists e :: e in m && e.Text? && sec.entry.Some? && !sec.entry.value(e.s))
  {
    if e :| e in m && e.Text? && sec.entry.Some? && !sec.entry.value(e.s) {
      assert NameRefused(sec, e);
    }
  }

  /** What falls back in a file is exactly what is wrong in the sections that are read. */
  lemma {:induction false} FailedIff(src: Source, root: map<Key, Value>, only: Option<set<string>>, u: string)
    ensures u in Failed(src, root, only) <==>
              exists key :: key in root && Read(src, only, key)
                && FallsBack(KeysOf(src.schema.keys, src.file), src.scope, Owner(src, key).value, key.s,
                             StripRetired(RetiredIn(src), key.s, root[key]), u)
  {
    forall key | key in root && Read(src, only, key)
      ensures u in OutcomeOf(src, root, key).units
         <==> FallsBack(KeysOf(src.schema.keys, src.file), src.scope, Owner(src, key).value, key.s,
                        StripRetired(RetiredIn(src), key.s, root[key]), u)
    {
      UnitsIff(src, Owner(src, key).value, key.s, root[key], u);
    }
  }

  // ----- what loads -----

  /** What a section leaves of the value of a top-level key, no entry's name refused: in a mapping of a per-entry
      section the good entries and the closed readings of the others, and a whole value that passes, or its
      closed reading. */
  ghost predicate Leaves(keys: seq<KeySpec>, scope: LayerScope, sec: SectionSpec, top: string, v: Value, x: Value)
  {
    if sec.perEntry && v.Mapping? then
      && x.Mapping? && x.m.Keys <= v.m.Keys
      && forall e | e in v.m ::
           if EntryGood(keys, scope, sec, top, e, v.m[e]) then e in x.m && x.m[e] == v.m[e]
           else (if e in x.m then Some(x.m[e]) else None) == EntryClosed(keys, scope, sec, top, e, v.m[e])
    else if Passes(keys, scope, [top], v) then x == v
    else Some(x) == Closed(keys, scope, [top], v)
  }

  /** The closed reading of an entry whose name is allowed. */
  function EntryClosed(keys: seq<KeySpec>, scope: LayerScope, sec: SectionSpec, top: string, e: Key, raw: Value)
    : Option<Value>
  {
    if e.Text? && (sec.entry.Some? ==> sec.entry.value(e.s)) then Closed(keys, scope, [top, e.s], raw) else None
  }

  /** What a section leaves of a list, item by item. */
  ghost predicate LeavesItem(keys: seq<KeySpec>, scope: LayerScope, top: string, item: Value, part: seq<Value>)
  {
    if Passes(keys, scope, [top], Sequence([item])) then part == [item]
    else match Closed(keys, scope, [top], Sequence([item])) case Some(Sequence(c)) => part == c case _ => part == []
  }

  /** Every name of the value's entries is allowed, or is no text. */
  predicate NoneRefused(sec: SectionSpec, v: Value)
  {
    sec.perEntry && v.Mapping? && sec.entry.Some? ==> forall e | e in v.m && e.Text? :: sec.entry.value(e.s)
  }

  /** A top-level key loads exactly when its section is read and does not fall back whole, or when it has a
      closed reading of its own: a refused name's, or a whole value's that fails. */
  lemma {:induction false} LoadsIff(src: Source, root: map<Key, Value>, only: Option<set<string>>, key: Key)
    requires key in root && Read(src, only, key)
    ensures var keys, sec := KeysOf(src.schema.keys, src.file), Owner(src, key).value;
            var v := StripRetired(RetiredIn(src), key.s, root[key]);
            key in Accepted(src, root, only) <==>
              || sec.name !in Failed(src, root, only)
              || !NoneRefused(sec, v)
              || (!(sec.perEntry && (v.Mapping? || v.Sequence?)) && !Passes(keys, src.scope, [key.s], v)
                  && Closed(keys, src.scope, [key.s], v).Some?)
  {
    var sec := Owner(src, key).value;
    var v := StripRetired(RetiredIn(src), key.s, root[key]);
    if sec.perEntry && v.Mapping? { RefusedIff(sec, v.m); }
  }

  /** What loads of a top-level key that is no list of a per-entry section, and has no name refused. */
  lemma {:induction false} LoadedLeaves(src: Source, root: map<Key, Value>, only: Option<set<string>>, key: Key)
    requires key in root && Read(src, only, key) && key in Accepted(src, root, only)
    requires var v := StripRetired(RetiredIn(src), key.s, root[key]);
             NoneRefused(Owner(src, key).value, v) && !(Owner(src, key).value.perEntry && v.Sequence?)
    ensures Leaves(KeysOf(src.schema.keys, src.file), src.scope, Owner(src, key).value, key.s,
                   StripRetired(RetiredIn(src), key.s, root[key]), Accepted(src, root, only)[key])
  {
    var keys, sec := KeysOf(src.schema.keys, src.file), Owner(src, key).value;
    var v := StripRetired(RetiredIn(src), key.s, root[key]);
    if sec.perEntry && v.Mapping? {
      RefusedIff(sec, v.m);
      assert Accepted(src, root, only)[key] == EntriesOutcome(src, keys, sec, key.s, v.m).kept;
    } else if !Passes(keys, src.scope, [key.s], v) {
      UnitsIff(src, sec, key.s, root[key], sec.name);
      assert sec.name in Failed(src, root, only);
    }
  }

  function Flat(parts: seq<seq<Value>>): seq<Value>
  {
    if parts == [] then [] else Flat(parts[..|parts| - 1]) + parts[|parts| - 1]
  }

  lemma {:induction false} ItemsLeave(keys: seq<KeySpec>, scope: LayerScope, top: string, items: seq<Value>)
    returns (parts: seq<seq<Value>>)
    ensures |parts| == |items| && Flat(parts) == ItemsKept(keys, scope, top, items)
    ensures forall i | 0 <= i < |items| :: LeavesItem(keys, scope, top, items[i], parts[i])
  {
    if items == [] {
      parts := [];
    } else {
      var front, last := items[..|items| - 1], items[|items| - 1];
      var before := ItemsLeave(keys, scope, top, front);
      parts := before + [ItemKept(keys, scope, top, last)];
      assert parts[..|before|] == before;
      assert LeavesItem(keys, scope, top, last, ItemKept(keys, scope, top, last));
      forall i | 0 <= i < |items| ensures LeavesItem(keys, scope, top, items[i], parts[i]) {
        if i < |front| { assert front[i] == items[i] && before[i] == parts[i]; }
      }
    }
  }

  /** What loads of a list of a per-entry section: in order, each item that passes and the closed reading of
      each that does not. */
  lemma {:induction false} LoadedItems(src: Source, root: map<Key, Value>, only: Option<set<string>>, key: Key)
    returns (parts: seq<seq<Value>>)
    requires key in root && Read(src, only, key) && key in Accepted(src, root, only) && Owner(src, key).value.perEntry
    requires StripRetired(RetiredIn(src), key.s, root[key]).Sequence?
    ensures var items := StripRetired(RetiredIn(src), key.s, root[key]).items;
            && Accepted(src, root, only)[key] == Sequence(Flat(parts)) && |parts| == |items|
            && forall i | 0 <= i < |items| ::
                 LeavesItem(KeysOf(src.schema.keys, src.file), src.scope, key.s, items[i], parts[i])
  {
    var items := StripRetired(RetiredIn(src), key.s, root[key]).items;
    parts := ItemsLeave(KeysOf(src.schema.keys, src.file), src.scope, key.s, items);
  }

  // ----- what a layer holds at a key -----

  /** `y` is what the file holds at a key that the layer admits, as the key accepts it, or its closed reading. */
  predicate FromFile(scope: LayerScope, k: KeySpec, held: Option<Value>, y: Value)
  {
    && Admits(scope, k.scope) && held.Some?
    && ((y == held.value && k.accepts(y)) || (k.failClosed.Some? && k.failClosed.value(held.value) == Some(y)))
  }

  /** A part of a value that passed, or of its closed reading, comes from the file. */
  lemma {:induction false} PartFromFile(keys: seq<KeySpec>, scope: LayerScope, at: Path, v: Value, x: Value,
                                        q: Path, k: KeySpec, y: Value)
    requires if Passes(keys, scope, at, v) then x == v else Some(x) == Closed(keys, scope, at, v)
    requires Unowned(keys, at, q) && FindKey(keys, at + q) == Some(k) && TextAt(x, q) == Some(y)
    ensures FromFile(scope, k, TextAt(v, q), y)
  {
    if Passes(keys, scope, at, v) {
      PassesPart(keys, scope, at, v, q, y);
    } else {
      ClosedAtKey(keys, scope, at, v, q, k, y);
    }
  }

  lemma {:induction false} EntryFromFile(keys: seq<KeySpec>, scope: LayerScope, sec: SectionSpec, path: Path,
                                         v: Value, x: Value, k: KeySpec, y: Value)
    requires |path| > 1 && sec.perEntry && v.Mapping? && Leaves(keys, scope, sec, path[0], v, x)
    requires FindKey(keys, path) == Some(k) && forall i | 0 < i < |path| :: FindKey(keys, path[..i]).None?
    requires TextAt(x, path[1..]) == Some(y)
    ensures FromFile(scope, k, TextAt(v, path[1..]), y)
  {
    var e, at, q := Text(path[1]), [path[0], path[1]], path[2..];
    assert path[1..][1..] == q && path == at + q;
    BelowUnowned(keys, path, 2);
    assert e in x.m && e in v.m;
    PartFromFile(keys, scope, at, v.m[e], x.m[e], q, k, y);
  }

  lemma {:induction false} WholeFromFile(keys: seq<KeySpec>, scope: LayerScope, sec: SectionSpec, path: Path,
                                         v: Value, x: Value, k: KeySpec, y: Value)
    requires path != [] && !(sec.perEntry && v.Mapping?) && Leaves(keys, scope, sec, path[0], v, x)
    requires FindKey(keys, path) == Some(k) && forall i | 0 < i < |path| :: FindKey(keys, path[..i]).None?
    requires TextAt(x, path[1..]) == Some(y)
    ensures FromFile(scope, k, TextAt(v, path[1..]), y)
  {
    assert path == [path[0]] + path[1..];
    BelowUnowned(keys, path, 1);
    PartFromFile(keys, scope, [path[0]], v, x, path[1..], k, y);
  }

  /** Every value that loads at a key is one the file holds there, admitted and accepted by that key, or the
      closed reading of it. A mapping given for a per-entry section is judged by its entries alone. */
  lemma {:induction false} LoadedFromFile(src: Source, root: map<Key, Value>, only: Option<set<string>>,
                                          path: Path, k: KeySpec, v: Value, y: Value)
    requires path != []
    requires var key := Text(path[0]); key in root && Read(src, only, key) && key in Accepted(src, root, only)
    requires var keys := KeysOf(src.schema.keys, src.file);
             FindKey(keys, path) == Some(k) && forall i | 0 < i < |path| :: FindKey(keys, path[..i]).None?
    requires v == StripRetired(RetiredIn(src), path[0], root[Text(path[0])])
    requires var sec := Owner(src, Text(path[0])).value;
             NoneRefused(sec, v) && !(sec.perEntry && v.Sequence?) && (sec.perEntry && v.Mapping? ==> |path| > 1)
    requires TextAt(Accepted(src, root, only)[Text(path[0])], path[1..]) == Some(y)
    ensures FromFile(src.scope, k, TextAt(v, path[1..]), y)
  {
    var key := Text(path[0]);
    var keys, sec, x := KeysOf(src.schema.keys, src.file), Owner(src, key).value, Accepted(src, root, only)[key];
    LoadedLeaves(src, root, only, key);
    if sec.perEntry && v.Mapping? {
      EntryFromFile(keys, src.scope, sec, path, v, x, k, y);
    } else {
      WholeFromFile(keys, src.scope, sec, path, v, x, k, y);
    }
  }

  lemma {:induction false} BelowUnowned(keys: seq<KeySpec>, path: Path, n: nat)
    requires 0 < n <= |path| && forall i | 0 < i < |path| :: FindKey(keys, path[..i]).None?
    ensures Unowned(keys, path[..n], path[n..])
    ensures n == 1 ==> path[..1] == [path[0]]
    ensures n == 2 ==> path[..2] == [path[0], path[1]]
  {
    forall i | 0 <= i < |path[n..]| ensures FindKey(keys, path[..n] + path[n..][..i]).None? {
      assert path[..n] + path[n..][..i] == path[..n + i];
    }
  }

  /** Given a mapping, a per-entry section whose own value is a key's, such as a list, loads the empty one,
      whatever the key accepts. */
  lemma {:induction false} MappingForKey(src: Source, root: map<Key, Value>, only: Option<set<string>>, key: Key,
                                         k: KeySpec)
    requires key in root && Read(src, only, key) && key in Accepted(src, root, only) && Owner(src, key).value.perEntry
    requires var v := StripRetired(RetiredIn(src), key.s, root[key]);
             v.Mapping? && NoneRefused(Owner(src, key).value, v)
    requires var keys := KeysOf(src.schema.keys, src.file); PathsApart(keys) && k in keys && TakesPath(k, [key.s])
    ensures Accepted(src, root, only)[key] == Mapping(map[])
  {
    var keys, sec := KeysOf(src.schema.keys, src.file), Owner(src, key).value;
    var v := StripRetired(RetiredIn(src), key.s, root[key]);
    LoadedLeaves(src, root, only, key);
    forall e | e in v.m
      ensures !EntryGood(keys, src.scope, sec, key.s, e, v.m[e])
      ensures EntryClosed(keys, src.scope, sec, key.s, e, v.m[e]).None?
    {
      if e.Text? { NothingBelow(keys, k, [key.s], [key.s, e.s], src.scope, v.m[e]); }
    }
    assert Accepted(src, root, only)[key].m.Keys == {};
  }

  /** Nothing below a key's own path is a key's, or leads on to one. */
  lemma {:induction false} NothingBelow(keys: seq<KeySpec>, k: KeySpec, path: Path, q: Path, scope: LayerScope,
                                        v: Value)
    requires PathsApart(keys) && k in keys && TakesPath(k, path) && path < q
    ensures !Passes(keys, scope, q, v) && Closed(keys, scope, q, v).None?
    decreases v
  {
    FindKeyIff(keys, q);
    if FindKey(keys, q).Some? {
      OnlyItself(keys, FindKey(keys, q).value, q, k, path);
    }
    if i :| 0 <= i < |keys| && LeadsOn(keys[i], q) {
      assert Overlap(keys[i].path, k.path) by {
        forall j | 0 <= j < |keys[i].path| && j < |k.path|
          ensures keys[i].path[j] == STAR || k.path[j] == STAR || keys[i].path[j] == k.path[j]
        {
          assert SegmentFits(k.path[j], path[j], k.starInstance);
        }
      }
      if keys[i] != k { KeysApartPaths(keys, keys[i], k); }
    }
    if v.Mapping? {
      forall key | key in v.m && key.Text? ensures Closed(keys, scope, q + [key.s], v.m[key]).None? {
        NothingBelow(keys, k, path, q + [key.s], scope, v.m[key]);
      }
    }
  }

  /** A per-entry section `targets` whose value is one key's, a list. */
  function TargetsSource(order: map<Key, Value> -> seq<Key>): Source
  {
    var k := KeySpec("targets", "targets", "f", ["targets"], Both, (v: Value) => v.Sequence?, None, [],
                     (b: seq<string>) => None, None, false, false);
    Source(Schema([SectionSpec("targets", "f", ["targets"], true, None)], [k], map[]), "f", UserLayer, order)
  }

  /** It happens: the empty mapping loads without a finding where the key takes a list. */
  lemma {:induction false} EmptyMappingLoads(order: map<Key, Value> -> seq<Key>)
    ensures var src, root := TargetsSource(order), map[Text("targets") := Mapping(map[])];
            && Clean(src, root, None) && Accepted(src, root, None) == root
            && !src.schema.keys[0].accepts(Mapping(map[]))
  {
    var src, key := TargetsSource(order), Text("targets");
    var none: map<Key, Value> := map[];
    var root := map[key := Mapping(none)];
    assert Owner(src, key) == Some(src.schema.sections[0]);
    assert StripRetired(RetiredIn(src), "targets", root[key]) == Mapping(none);
    CleanIff(src, root, None);
    assert OutcomeOf(src, root, key).kept.m == none;
    assert OutcomeOf(src, root, key).units == {};
    assert Accepted(src, root, None).Keys == root.Keys;
  }
}
