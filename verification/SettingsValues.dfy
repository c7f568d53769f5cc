/** A settings document as a tree of values, and reading and writing it by key path. */
module SettingsValues {
  import opened Basics

  /** A mapping's key: text, or a scalar written `written`, or anything else. */
  datatype Key = Text(s: string) | Scalar(written: string) | Complex(shown: string)

  datatype Value =
    | Null
    | Bool(b: bool)
    | Number(written: string)
    | Str(s: string)
    | Sequence(items: seq<Value>)
    | Mapping(m: map<Key, Value>)
    | Tagged(tag: string)

  type Path = seq<string>

  datatype Setting = Setting(path: Path, value: Value)

  /** How a key reads in a message, and in the name of the unit it heads. */
  function Shown(k: Key): string
  {
    match k
    case Text(s) => s
    case Scalar(w) => w
    case Complex(s) => s
  }

  /** The value at a path of text keys. */
  function TextAt(v: Value, path: Path): Option<Value>
    decreases |path|
  {
    if path == [] then Some(v)
    else if v.Mapping? && Text(path[0]) in v.m then TextAt(v.m[Text(path[0])], path[1..])
    else None
  }

  /** `value_at`: a segment names the text key, or else a scalar key written the same way. */
  function ValueAt(v: Value, path: Path): Option<Value>
    decreases |path|
  {
    if path == [] then Some(v)
    else if !v.Mapping? then None
    else if Text(path[0]) in v.m then ValueAt(v.m[Text(path[0])], path[1..])
    else if Scalar(path[0]) in v.m then ValueAt(v.m[Scalar(path[0])], path[1..])
    else None
  }

  lemma {:induction false} TextAtReads(v: Value, path: Path)
    requires TextAt(v, path).Some?
    ensures ValueAt(v, path) == TextAt(v, path)
    decreases |path|
  {
    if path != [] {
      TextAtReads(v.m[Text(path[0])], path[1..]);
    }
  }

  /** A text key wins over a scalar one written the same, which is read where there is none. */
  lemma {:induction false} TextWins(m: map<Key, Value>, seg: string, rest: Path)
    ensures Text(seg) in m ==> ValueAt(Mapping(m), [seg] + rest) == ValueAt(m[Text(seg)], rest)
    ensures Text(seg) !in m && Scalar(seg) in m ==> ValueAt(Mapping(m), [seg] + rest) == ValueAt(m[Scalar(seg)], rest)
    ensures Text(seg) !in m && Scalar(seg) !in m ==> ValueAt(Mapping(m), [seg] + rest) == None
  {
    assert ([seg] + rest)[1..] == rest;
  }

  lemma {:induction false} TextAtConcat(v: Value, p: Path, q: Path)
    requires TextAt(v, p).Some?
    ensures TextAt(v, p + q) == TextAt(TextAt(v, p).value, q)
    decreases |p|
  {
    if p == [] {
      assert p + q == q;
    } else {
      TextAtConcat(v.m[Text(p[0])], p[1..], q);
      assert (p + q)[1..] == p[1..] + q;
    }
  }

  /** `set_in`: the value at a path, making the mappings between. */
  function SetIn(root: map<Key, Value>, path: Path, v: Value): map<Key, Value>
    requires path != []
    decreases |path|
  {
    var k := Text(path[0]);
    if |path| == 1 then root[k := v] else
    var below := if k in root && root[k].Mapping? then root[k].m else map[];
    root[k := Mapping(SetIn(below, path[1..], v))]
  }

  function SetAll(root: map<Key, Value>, list: seq<Setting>): map<Key, Value>
    requires forall s | s in list :: s.path != []
  {
    if list == [] then root
    else SetIn(SetAll(root, list[..|list| - 1]), list[|list| - 1].path, list[|list| - 1].value)
  }

  /** One path is the other or leads to it. */
  predicate Related(p: Path, q: Path) { p <= q || q <= p }

  predicate PrefixFree(list: seq<Setting>)
  {
    forall i, j | 0 <= i < j < |list| :: !Related(list[i].path, list[j].path)
  }

  lemma {:induction false} SetInAt(root: map<Key, Value>, path: Path, v: Value)
    requires path != []
    ensures TextAt(Mapping(SetIn(root, path, v)), path) == Some(v)
    decreases |path|
  {
    var k := Text(path[0]);
    if |path| > 1 {
      var below := if k in root && root[k].Mapping? then root[k].m else map[];
      SetInAt(below, path[1..], v);
    } else {
      assert path[1..] == [];
    }
  }

  lemma {:induction false} SetInElsewhere(root: map<Key, Value>, path: Path, v: Value, q: Path)
    requires path != [] && !Related(path, q)
    ensures TextAt(Mapping(SetIn(root, path, v)), q) == TextAt(Mapping(root), q)
    decreases |path|
  {
    var k := Text(path[0]);
    if path[0] == q[0] {
      assert path == [path[0]] + path[1..] && q == [q[0]] + q[1..];
      var below := if k in root && root[k].Mapping? then root[k].m else map[];
      SetInElsewhere(below, path[1..], v, q[1..]);
      if !(k in root && root[k].Mapping?) {
        assert q[1..] != [];
        assert TextAt(Mapping(below), q[1..]) == None;
        assert k in root ==> TextAt(root[k], q[1..]) == None;
      }
    }
  }

  /** A setting that no other disturbs reads back: every other is the same, or at an unrelated path. */
  lemma {:induction false} SetAllHolds(root: map<Key, Value>, list: seq<Setting>, one: Setting)
    requires (forall s | s in list :: s.path != []) && one in list
    requires forall s | s in list :: s == one || !Related(s.path, one.path)
    ensures TextAt(Mapping(SetAll(root, list)), one.path) == Some(one.value)
  {
    var n := |list| - 1;
    var before := list[..n];
    if list[n] == one {
      SetInAt(SetAll(root, before), one.path, one.value);
    } else {
      assert forall s | s in before :: s in list;
      assert one in before by { assert list == before + [list[n]]; }
      SetAllHolds(root, before, one);
      SetInElsewhere(SetAll(root, before), list[n].path, list[n].value, one.path);
    }
  }

  /** Settings at unrelated paths do not disturb one another: each reads back. */
  lemma {:induction false} SetAllAt(root: map<Key, Value>, list: seq<Setting>, i: nat)
    requires forall s | s in list :: s.path != []
    requires PrefixFree(list) && i < |list|
    ensures TextAt(Mapping(SetAll(root, list)), list[i].path) == Some(list[i].value)
  {
    forall s | s in list ensures s == list[i] || !Related(s.path, list[i].path) {
      var j :| 0 <= j < |list| && list[j] == s;
      if j < i {
        assert !Related(list[j].path, list[i].path);
      } else if i < j {
        assert !Related(list[i].path, list[j].path);
      }
    }
    SetAllHolds(root, list, list[i]);
  }

  /** A path unrelated to every setting reads as before. */
  lemma {:induction false} SetAllElsewhere(root: map<Key, Value>, list: seq<Setting>, q: Path)
    requires forall s | s in list :: s.path != [] && !Related(s.path, q)
    ensures TextAt(Mapping(SetAll(root, list)), q) == TextAt(Mapping(root), q)
  {
    if list != [] {
      var n := |list| - 1;
      SetAllElsewhere(root, list[..n], q);
      SetInElsewhere(SetAll(root, list[..n]), list[n].path, list[n].value, q);
    }
  }

  /** The value without what is at a path of text keys under it. */
  function RemoveAt(v: Value, path: Path): Value
    requires path != []
    decreases |path|
  {
    if !v.Mapping? || Text(path[0]) !in v.m then v
    else if |path| == 1 then Mapping(v.m - {Text(path[0])})
    else Mapping(v.m[Text(path[0]) := RemoveAt(v.m[Text(path[0])], path[1..])])
  }

  lemma {:induction false} RemoveNothing(v: Value, path: Path)
    requires path != [] && TextAt(v, path) == None
    ensures RemoveAt(v, path) == v
    decreases |path|
  {
    if v.Mapping? && Text(path[0]) in v.m {
      assert |path| > 1;
      RemoveNothing(v.m[Text(path[0])], path[1..]);
    }
  }

  lemma {:induction false} RemovedGone(v: Value, path: Path)
    requires path != []
    ensures TextAt(RemoveAt(v, path), path) == None
    decreases |path|
  {
    if v.Mapping? && Text(path[0]) in v.m && |path| > 1 {
      RemovedGone(v.m[Text(path[0])], path[1..]);
    }
  }

  /** Removing a path takes nothing away from an unrelated one, and adds nothing anywhere. */
  lemma {:induction false} RemovedElsewhere(v: Value, path: Path, q: Path)
    requires path != []
    ensures !Related(path, q) ==> TextAt(RemoveAt(v, path), q) == TextAt(v, q)
    ensures TextAt(v, q) == None ==> TextAt(RemoveAt(v, path), q) == None
    decreases |path|
  {
    if v.Mapping? && Text(path[0]) in v.m && q != [] && path[0] == q[0] && |path| > 1 {
      RemovedElsewhere(v.m[Text(path[0])], path[1..], q[1..]);
      assert path == [path[0]] + path[1..] && q == [q[0]] + q[1..];
    }
  }
}
