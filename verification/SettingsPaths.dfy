/** Keys and the paths their patterns take: which path is whose, and when no two keys meet (`schema.rs`). */
module SettingsPaths {
  import opened Basics
  import opened SettingsValues
  import opened SettingsSchema
  import opened SettingsLoad

  // ----- the paths a pattern takes -----

  /** The wildcards' segments of a path the pattern fits. */
  function Starred(pat: Path, path: Path): (bound: seq<string>)
    requires |path| == |pat|
    ensures |bound| == Stars(pat)
  {
    if pat == [] then []
    else (if pat[0] == STAR then [path[0]] else []) + Starred(pat[1..], path[1..])
  }

  /** What may be bound in a path. */
  predicate Segment(s: string, star: bool) { s != "" && (s != STAR || star) }

  lemma {:induction false} StarredBinds(pat: Path, path: Path, star: bool)
    requires |path| == |pat| && forall i | 0 <= i < |pat| :: SegmentFits(pat[i], path[i], star)
    ensures BindParts(pat, Starred(pat, path)) == path
    ensures forall s | s in Starred(pat, path) :: Segment(s, star)
  {
    if pat != [] {
      assert SegmentFits(pat[0], path[0], star);
      forall i | 0 <= i < |pat[1..]| ensures SegmentFits(pat[1..][i], path[1..][i], star) {
        assert SegmentFits(pat[i + 1], path[i + 1], star);
      }
      StarredBinds(pat[1..], path[1..], star);
      if pat[0] == STAR {
        assert Starred(pat, path)[1..] == Starred(pat[1..], path[1..]);
      } else {
        assert Starred(pat, path) == Starred(pat[1..], path[1..]);
      }
    }
  }

  lemma {:induction false} BoundFits(pat: Path, bound: seq<string>, star: bool, i: nat)
    requires |bound| == Stars(pat) && i < |pat| && forall s | s in bound :: Segment(s, star)
    ensures SegmentFits(pat[i], BindParts(pat, bound)[i], star)
    decreases |pat|
  {
    var rest := if pat[0] == STAR then bound[1..] else bound;
    if i > 0 {
      assert forall s | s in rest :: s in bound;
      BoundFits(pat[1..], rest, star, i - 1);
    } else if pat[0] == STAR {
      assert bound[0] in bound;
    }
  }

  /** A key takes exactly the paths its pattern gives when every wildcard is bound to a segment that is not
      empty, and is no bare `*` unless the key takes one. */
  lemma {:induction false} TakesPathIff(k: KeySpec, path: Path)
    ensures TakesPath(k, path) <==>
              exists b :: |b| == Stars(k.path) && (forall s | s in b :: Segment(s, k.starInstance))
                          && BindPath(k, b) == path
  {
    if TakesPath(k, path) {
      StarredBinds(k.path, path, k.starInstance);
      assert BindPath(k, Starred(k.path, path)) == path;
    }
    if b :| |b| == Stars(k.path) && (forall s | s in b :: Segment(s, k.starInstance)) && BindPath(k, b) == path {
      forall i | 0 <= i < |path| ensures SegmentFits(k.path[i], path[i], k.starInstance) {
        BoundFits(k.path, b, k.starInstance, i);
      }
    }
  }

  /** The key found for a path is the first that takes it. */
  lemma {:induction false} FindKeyIff(keys: seq<KeySpec>, path: Path)
    ensures FindKey(keys, path).None? <==> forall i | 0 <= i < |keys| :: !TakesPath(keys[i], path)
    ensures FindKey(keys, path).Some? ==>
              exists i :: 0 <= i < |keys| && FindKey(keys, path) == Some(keys[i]) && TakesPath(keys[i], path)
                          && forall j | 0 <= j < i :: !TakesPath(keys[j], path)
  {
    if keys != [] {
      FindKeyIff(keys[1..], path);
      assert forall i | 1 <= i < |keys| :: keys[i] == keys[1..][i - 1];
      if !TakesPath(keys[0], path) && FindKey(keys, path).Some? {
        var i :| 0 <= i < |keys[1..]| && FindKey(keys[1..], path) == Some(keys[1..][i]) && TakesPath(keys[1..][i], path)
                 && forall j | 0 <= j < i :: !TakesPath(keys[1..][j], path);
        assert FindKey(keys, path) == Some(keys[i + 1]) && TakesPath(keys[i + 1], path);
        forall j | 0 <= j < i + 1 ensures !TakesPath(keys[j], path) {
          if j > 0 { assert keys[j] == keys[1..][j - 1]; }
        }
      }
    }
  }

  // ----- keys told apart by their paths -----

  /** Some path fits both patterns, or leads on from one to the other. */
  predicate Overlap(p: Path, q: Path)
  {
    forall i | 0 <= i < |p| && i < |q| :: p[i] == STAR || q[i] == STAR || p[i] == q[i]
  }

  /** A key has a path, and a declared instance fills its one wildcard. */
  predicate Formed(k: KeySpec) { k.path != [] && ('*' in k.name && k.instances != [] ==> Stars(k.path) == 1) }

  predicate PathsApart(keys: seq<KeySpec>)
  {
    forall i, j | 0 <= i < j < |keys| :: !Overlap(keys[i].path, keys[j].path)
  }

  /** The keys stored in one file are well-formed, and no path of one is, or leads to, a path of another. */
  ghost predicate KeysApart(keys: seq<KeySpec>)
  {
    && (forall k | k in keys && k.computed.None? :: Formed(k))
    && (forall file :: PathsApart(KeysOf(keys, file)))
  }

  lemma {:induction false} FixedKept(pat: Path, b: seq<string>, i: nat)
    requires i < |pat| && pat[i] != STAR
    ensures BindParts(pat, b)[i] == pat[i]
    decreases |pat|
  {
    if i > 0 { FixedKept(pat[1..], if pat[0] == STAR && b != [] then b[1..] else b, i - 1); }
  }

  lemma {:induction false} ApartBound(p: Path, a: seq<string>, q: Path, b: seq<string>)
    requires !Overlap(p, q)
    ensures !Related(BindParts(p, a), BindParts(q, b))
  {
    var i :| 0 <= i < |p| && i < |q| && p[i] != STAR && q[i] != STAR && p[i] != q[i];
    FixedKept(p, a, i);
    FixedKept(q, b, i);
  }

  /** Two bindings of one pattern bind different paths. */
  lemma {:induction false} BoundApart(pat: Path, a: seq<string>, b: seq<string>)
    requires |a| == |b| == Stars(pat) && a != b
    ensures BindParts(pat, a) != BindParts(pat, b) && !Related(BindParts(pat, a), BindParts(pat, b))
  {
    var x, y := BindParts(pat, a), BindParts(pat, b);
    if pat[0] != STAR {
      BoundApart(pat[1..], a, b);
      assert x[1..] == BindParts(pat[1..], a) && y[1..] == BindParts(pat[1..], b);
    } else if a[0] == b[0] {
      assert a == [a[0]] + a[1..] && b == [b[0]] + b[1..];
      BoundApart(pat[1..], a[1..], b[1..]);
      assert x[1..] == BindParts(pat[1..], a[1..]) && y[1..] == BindParts(pat[1..], b[1..]);
    } else {
      assert x[0] != y[0];
    }
  }

  lemma {:induction false} KeysOfHold(keys: seq<KeySpec>, k: KeySpec)
    requires k in keys && k.computed.None?
    ensures k in KeysOf(keys, k.file)
  {
    if k != keys[0] { KeysOfHold(keys[1..], k); }
  }

  lemma {:induction false} KeysOfConcat(a: seq<KeySpec>, b: seq<KeySpec>, file: string)
    ensures KeysOf(a + b, file) == KeysOf(a, file) + KeysOf(b, file)
  {
    if a == [] {
      assert a + b == b;
    } else {
      assert (a + b)[1..] == a[1..] + b;
      KeysOfConcat(a[1..], b, file);
    }
  }

  /** The last key's paths are unrelated to those of the keys before it. */
  lemma {:induction false} LastApart(keys: seq<KeySpec>, front: seq<KeySpec>, last: KeySpec)
    requires KeysApart(keys) && keys == front + [last]
    ensures KeysApart(front)
    ensures forall k | k in front && k.computed.None? && last.computed.None? && k.file == last.file ::
              !Overlap(k.path, last.path)
  {
    forall file ensures PathsApart(KeysOf(front, file)) {
      KeysOfConcat(front, [last], file);
      assert PathsApart(KeysOf(keys, file));
      FrontApart(KeysOf(front, file), KeysOf([last], file));
    }
    forall k | k in front && k.computed.None? && last.computed.None? && k.file == last.file
      ensures !Overlap(k.path, last.path)
    {
      KeysOfConcat(front, [last], k.file);
      KeysOfHold(front, k);
      assert KeysOf([last], k.file) == [last];
      assert PathsApart(KeysOf(keys, k.file));
      AcrossApart(KeysOf(front, k.file), last, k);
    }
  }

  lemma {:induction false} FrontApart(a: seq<KeySpec>, b: seq<KeySpec>)
    requires PathsApart(a + b)
    ensures PathsApart(a)
  {
    assert forall i | 0 <= i < |a| :: (a + b)[i] == a[i];
  }

  lemma {:induction false} AcrossApart(a: seq<KeySpec>, last: KeySpec, k: KeySpec)
    requires PathsApart(a + [last]) && k in a
    ensures !Overlap(k.path, last.path)
  {
    var i :| 0 <= i < |a| && a[i] == k;
    assert (a + [last])[i] == k && (a + [last])[|a|] == last;
  }

  /** A path that fits one pattern and leads to or fits another makes the two overlap. */
  lemma {:induction false} FitsOverlap(k: KeySpec, path: Path, other: KeySpec, q: Path)
    requires TakesPath(k, path) && TakesPath(other, q) && q <= path
    ensures Overlap(k.path, other.path) && Overlap(other.path, k.path)
  {
    forall i | 0 <= i < |k.path| && i < |other.path|
      ensures k.path[i] == STAR || other.path[i] == STAR || k.path[i] == other.path[i]
    {
      assert SegmentFits(k.path[i], path[i], k.starInstance);
      assert SegmentFits(other.path[i], q[i], other.starInstance);
    }
  }

  /** With paths apart, only the key itself takes its path or one above it. */
  lemma {:induction false} OnlyItself(keys: seq<KeySpec>, k: KeySpec, path: Path, other: KeySpec, q: Path)
    requires PathsApart(keys) && k in keys && other in keys
    requires TakesPath(k, path) && TakesPath(other, q) && q <= path
    ensures other == k && |q| == |path|
  {
    FitsOverlap(k, path, other, q);
    var i: nat :| i < |keys| && keys[i] == k;
    var j: nat :| j < |keys| && keys[j] == other;
    OverlapSame(keys, i, j);
  }

  lemma {:induction false} OverlapSame(keys: seq<KeySpec>, i: nat, j: nat)
    requires PathsApart(keys) && i < |keys| && j < |keys|
    requires Overlap(keys[i].path, keys[j].path) && Overlap(keys[j].path, keys[i].path)
    ensures i == j
  {
  }

  lemma {:induction false} FoundAlone(keys: seq<KeySpec>, k: KeySpec, path: Path)
    requires PathsApart(keys) && k in keys && TakesPath(k, path)
    ensures FindKey(keys, path) == Some(k)
    ensures forall i | 0 < i < |path| :: FindKey(keys, path[..i]).None?
  {
    FindKeyIff(keys, path);
    OnlyItself(keys, k, path, FindKey(keys, path).value, path);
    forall i | 0 < i < |path| ensures FindKey(keys, path[..i]).None? {
      if FindKey(keys, path[..i]).Some? {
        OnlyItself(keys, k, path, FindKey(keys, path[..i]).value, path[..i]);
      }
    }
  }

  /** Overlapping is mutual, so any two keys' paths are apart both ways. */
  lemma {:induction false} KeysApartPaths(keys: seq<KeySpec>, a: KeySpec, b: KeySpec)
    requires PathsApart(keys) && a in keys && b in keys && a != b
    ensures !Overlap(a.path, b.path)
  {
    var i: nat :| i < |keys| && keys[i] == a;
    var j: nat :| j < |keys| && keys[j] == b;
    if i < j {
      assert !Overlap(keys[i].path, keys[j].path);
    } else {
      assert !Overlap(keys[j].path, keys[i].path);
    }
  }

  // ----- the condition is no stronger than it must be -----

  /** Segments for the wildcards of `p` that agree with the fixed segments of `q`. */
  function Meet(p: Path, q: Path): (bound: seq<string>)
    ensures |bound| == Stars(p)
  {
    if p == [] then []
    else
      var rest := Meet(p[1..], if q == [] then [] else q[1..]);
      if p[0] != STAR then rest else [if q != [] && q[0] != STAR then q[0] else "x"] + rest
  }

  lemma {:induction false} MeetRelated(p: Path, q: Path)
    requires Overlap(p, q)
    ensures Related(BindParts(p, Meet(p, q)), BindParts(q, Meet(q, p)))
  {
    if p != [] && q != [] {
      assert p[0] == STAR || q[0] == STAR || p[0] == q[0];
      forall i | 0 <= i < |p[1..]| && i < |q[1..]|
        ensures p[1..][i] == STAR || q[1..][i] == STAR || p[1..][i] == q[1..][i]
      {
        assert p[i + 1] == STAR || q[i + 1] == STAR || p[i + 1] == q[i + 1];
      }
      MeetRelated(p[1..], q[1..]);
      MeetFirst(p, q);
      MeetFirst(q, p);
    }
  }

  lemma {:induction false} MeetFirst(p: Path, q: Path)
    requires p != [] && q != []
    ensures BindParts(p, Meet(p, q))
         == [if p[0] != STAR then p[0] else if q[0] != STAR then q[0] else "x"]
            + BindParts(p[1..], Meet(p[1..], q[1..]))
  {
    if p[0] == STAR { assert Meet(p, q)[1..] == Meet(p[1..], q[1..]); }
  }

  /** Two patterns overlap exactly when some bindings of theirs bind one path, or one that leads to the other. */
  lemma {:induction false} OverlapIff(p: Path, q: Path)
    ensures Overlap(p, q) <==>
              exists a, b :: |a| == Stars(p) && |b| == Stars(q) && Related(BindParts(p, a), BindParts(q, b))
  {
    if Overlap(p, q) {
      MeetRelated(p, q);
    }
    if a, b :| |a| == Stars(p) && |b| == Stars(q) && Related(BindParts(p, a), BindParts(q, b)) {
      if !Overlap(p, q) { ApartBound(p, a, q, b); }
    }
  }

  /** A text key at a path. */
  function SampleKey(name: string, path: Path): KeySpec
  {
    KeySpec(name, "ways", "ways", path, Both, (v: Value) => v.Str?, None, [], (b: seq<string>) => None, None, false,
            false)
  }

  lemma {:induction false} TwoApart(a: KeySpec, b: KeySpec)
    requires Formed(a) && Formed(b) && a.file == b.file && a.computed.None? && b.computed.None?
    requires !Overlap(a.path, b.path)
    ensures KeysApart([a, b])
  {
    var keys, last, none: seq<KeySpec> := [a, b], [b], [];
    assert keys[1..] == last && last[1..] == none;
    forall file ensures PathsApart(KeysOf(keys, file)) {
      assert KeysOf(none, file) == [];
      assert KeysOf(last, file) == if b.file == file then [b] else [];
      assert KeysOf(keys, file) == if a.file == file then [a, b] else [];
    }
  }

  /** The language and the per-way switches are told apart by their paths. */
  lemma {:induction false} LanguageAndWays()
    ensures KeysApart([SampleKey("ways.language", ["language"]), SampleKey("ways.project.*", ["ways", "*"])])
  {
    var a, b := SampleKey("ways.language", ["language"]), SampleKey("ways.project.*", ["ways", "*"]);
    assert |"language"| == 8 && |"ways"| == 4 && |STAR| == 1;
    assert a.path[0] == "language" && b.path[0] == "ways";
    TwoApart(a, b);
  }
}
