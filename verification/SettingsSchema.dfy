/** Settings declarations, and the wildcard names and paths of keys (`schema.rs`). */
module SettingsSchema {
  import opened Basics
  import opened SettingsValues

  datatype Scope = User | Project | Both | Machine

  datatype LayerScope = UserLayer | TargetLayer | ProjectLayer

  predicate Admits(layer: LayerScope, scope: Scope)
  {
    || scope.Both?
    || (layer.UserLayer? && scope.User?)
    || (layer.ProjectLayer? && scope.Project?)
    || (!layer.ProjectLayer? && scope.Machine?)
  }

  /** One key. The n-th `*` of the dotted name is the n-th `*` of the path. `accepts` is the type
      and the key's own check; `failClosed` its closed reading of a raw value. */
  datatype KeySpec = KeySpec(
    name: string,
    section: string,
    file: string,
    path: Path,
    scope: Scope,
    accepts: Value -> bool,
    failClosed: Option<Value -> Option<Value>>,
    instances: seq<string>,
    default: seq<string> -> Option<Value>,
    computed: Option<seq<string> -> Value>,
    starInstance: bool,
    secret: bool)

  datatype SectionSpec = SectionSpec(
    name: string,
    file: string,
    top: seq<string>,
    perEntry: bool,
    entry: Option<string -> bool>)

  /** `retired` lists each file kind's retired keys as dotted names. */
  datatype Schema = Schema(sections: seq<SectionSpec>, keys: seq<KeySpec>, retired: map<string, seq<string>>)

  const STAR := "*"

  // ----- matching and binding names -----

  function Stars(pat: seq<string>): nat
  {
    if pat == [] then 0 else (if pat[0] == STAR then 1 else 0) + Stars(pat[1..])
  }

  /** The pattern with each `*` replaced by the next binding; a missing one is empty. */
  function BindParts(pat: seq<string>, bound: seq<string>): (parts: seq<string>)
    ensures |parts| == |pat|
  {
    if pat == [] then []
    else if pat[0] != STAR then [pat[0]] + BindParts(pat[1..], bound)
    else if bound == [] then [""] + BindParts(pat[1..], bound)
    else [bound[0]] + BindParts(pat[1..], bound[1..])
  }

  function BindName(k: KeySpec, bound: seq<string>): string { Join(BindParts(Split(k.name, '.'), bound), '.') }

  function BindPath(k: KeySpec, bound: seq<string>): Path { BindParts(k.path, bound) }

  predicate LegalOne(b: string, star: bool) { b != "" && (star || STAR !in Split(b, '.')) }

  /** One non-empty binding for each wildcard, none with a bare `*` unless the key takes it. */
  predicate Legal(pat: seq<string>, bound: seq<string>, star: bool)
  {
    |bound| == Stars(pat) && forall b | b in bound :: LegalOne(b, star)
  }

  /** Match the parts of a name: the first, shortest choice for each wildcard that lets the rest match. */
  function MatchParts(pat: seq<string>, parts: seq<string>, star: bool): Option<seq<string>>
    decreases |pat|, 1, 0
  {
    if pat == [] && parts == [] then Some([])
    else if pat == [] || parts == [] then None
    else if pat[0] == STAR then FirstTake(pat, parts, star, 1)
    else if pat[0] == parts[0] then MatchParts(pat[1..], parts[1..], star)
    else None
  }

  /** The first match that gives the leading wildcard `take` parts or more. */
  function FirstTake(pat: seq<string>, parts: seq<string>, star: bool, take: nat): Option<seq<string>>
    requires pat != [] && pat[0] == STAR && take >= 1
    decreases |pat|, 0, |parts| - take
  {
    if take + |pat| - 1 > |parts| then None
    else
      var name := Join(parts[..take], '.');
      var rest := MatchParts(pat[1..], parts[take..], star);
      if name == "" || (!star && STAR in parts[..take]) || rest.None?
      then FirstTake(pat, parts, star, take + 1)
      else Some([name] + rest.value)
  }

  function MatchName(k: KeySpec, name: string): Option<seq<string>>
  {
    MatchParts(Split(k.name, '.'), Split(name, '.'), k.starInstance)
  }

  /** `match_parts` as the source runs it: bindings are appended to `out`, and a failed branch
      leaves what was there untouched. */
  method MatchInPlace(pat: seq<string>, parts: seq<string>, star: bool, out: seq<string>)
    returns (ok: bool, now: seq<string>)
    ensures ok <==> MatchParts(pat, parts, star).Some?
    ensures now == if ok then out + MatchParts(pat, parts, star).value else out
    decreases |pat|
  {
    if pat == [] && parts == [] {
      return true, out;
    }
    if pat == [] || parts == [] {
      return false, out;
    }
    if pat[0] != STAR {
      if pat[0] != parts[0] {
        return false, out;
      }
      ok, now := MatchInPlace(pat[1..], parts[1..], star, out);
      return;
    }
    var rest := |pat| - 1;
    if |parts| < rest + 1 {
      return false, out;
    }
    var take := 1;
    while take <= |parts| - rest
      invariant 1 <= take <= |parts| - rest + 1
      invariant MatchParts(pat, parts, star) == FirstTake(pat, parts, star, take)
    {
      var name := Join(parts[..take], '.');
      if name != "" && (star || STAR !in parts[..take]) {
        var matched, trial := MatchInPlace(pat[1..], parts[take..], star, out + [name]);
        if matched {
          assert out + [name] + MatchParts(pat[1..], parts[take..], star).value
              == out + ([name] + MatchParts(pat[1..], parts[take..], star).value);
          return true, trial;
        }
      }
      take := take + 1;
    }
    return false, out;
  }

  // ----- a matched name prints back, and a printable name matches -----

  /** The parts a binding prints: a wildcard's binding may hold several. */
  function Expand(pat: seq<string>, bound: seq<string>): seq<string>
    requires |bound| == Stars(pat)
  {
    if pat == [] then []
    else if pat[0] == STAR then Split(bound[0], '.') + Expand(pat[1..], bound[1..])
    else [pat[0]] + Expand(pat[1..], bound)
  }

  predicate Plain(pat: seq<string>) { forall p | p in pat :: '.' !in p }

  lemma {:induction false} SplitBound(pat: seq<string>, bound: seq<string>)
    requires Plain(pat) && pat != [] && |bound| == Stars(pat)
    ensures Split(Join(BindParts(pat, bound), '.'), '.') == Expand(pat, bound)
  {
    var head := BindParts(pat, bound)[0];
    var used := if pat[0] == STAR then 1 else 0;
    assert BindParts(pat, bound) == [head] + BindParts(pat[1..], bound[used..]);
    if pat[0] != STAR {
      SplitPlain(pat[0], '.');
      assert bound[0..] == bound;
    }
    if |pat| > 1 {
      SplitBound(pat[1..], bound[used..]);
      SplitConcat(head, '.', Join(BindParts(pat[1..], bound[used..]), '.'));
    } else {
      assert Expand(pat[1..], bound[used..]) == [];
    }
  }

  /** A binding prints `name` exactly when its parts are the name's parts. */
  lemma {:induction false} PrintsIffParts(k: KeySpec, bound: seq<string>, name: string)
    requires |bound| == Stars(Split(k.name, '.'))
    ensures BindName(k, bound) == name <==> Expand(Split(k.name, '.'), bound) == Split(name, '.')
  {
    SplitParts(k.name, '.');
    SplitBound(Split(k.name, '.'), bound);
    JoinSplit(BindName(k, bound), '.');
    JoinSplit(name, '.');
  }

  lemma {:induction false} MatchSound(pat: seq<string>, parts: seq<string>, star: bool)
    requires Plain(parts)
    ensures MatchParts(pat, parts, star).Some? ==>
              var bound := MatchParts(pat, parts, star).value;
              Legal(pat, bound, star) && Expand(pat, bound) == parts
    decreases |pat|, 1, 0
  {
    if pat != [] && parts != [] {
      if pat[0] == STAR {
        TakeSound(pat, parts, star, 1);
      } else {
        MatchSound(pat[1..], parts[1..], star);
        assert parts == [parts[0]] + parts[1..];
      }
    }
  }

  lemma {:induction false} TakeSound(pat: seq<string>, parts: seq<string>, star: bool, take: nat)
    requires Plain(parts) && pat != [] && pat[0] == STAR && take >= 1
    ensures FirstTake(pat, parts, star, take).Some? ==>
              var bound := FirstTake(pat, parts, star, take).value;
              Legal(pat, bound, star) && Expand(pat, bound) == parts
    decreases |pat|, 0, |parts| - take
  {
    if take + |pat| - 1 <= |parts| {
      TakeSound(pat, parts, star, take + 1);
      MatchSound(pat[1..], parts[take..], star);
      SplitJoin(parts[..take], '.');
      assert parts == parts[..take] + parts[take..];
      var rest := MatchParts(pat[1..], parts[take..], star);
      if rest.Some? {
        var bound := [Join(parts[..take], '.')] + rest.value;
        assert bound[1..] == rest.value;
      }
    }
  }

  lemma {:induction false} ExpandLength(pat: seq<string>, bound: seq<string>)
    requires |bound| == Stars(pat)
    ensures |Expand(pat, bound)| >= |pat|
  {
    if pat != [] {
      ExpandLength(pat[1..], if pat[0] == STAR then bound[1..] else bound);
    }
  }

  /** `a` gives the earliest wildcard on which it differs from `b` fewer parts. */
  predicate NoLonger(a: seq<string>, b: seq<string>)
    requires |a| == |b|
  {
    a == [] || |Split(a[0], '.')| < |Split(b[0], '.')| || (a[0] == b[0] && NoLonger(a[1..], b[1..]))
  }

  lemma {:induction false} MatchComplete(pat: seq<string>, parts: seq<string>, star: bool, bound: seq<string>)
    requires Legal(pat, bound, star) && Expand(pat, bound) == parts
    ensures MatchParts(pat, parts, star).Some?
    ensures |MatchParts(pat, parts, star).value| == |bound| && NoLonger(MatchParts(pat, parts, star).value, bound)
    decreases |pat|, 1, 0
  {
    if pat != [] {
      if pat[0] == STAR {
        assert parts == Split(bound[0], '.') + Expand(pat[1..], bound[1..]);
        TakeComplete(pat, parts, star, bound, 1);
      } else {
        assert parts[1..] == Expand(pat[1..], bound);
        MatchComplete(pat[1..], parts[1..], star, bound);
      }
    }
  }

  lemma {:induction false} TakeComplete(pat: seq<string>, parts: seq<string>, star: bool, bound: seq<string>, take: nat)
    requires Legal(pat, bound, star) && Expand(pat, bound) == parts
    requires pat != [] && pat[0] == STAR && 1 <= take <= |Split(bound[0], '.')|
    ensures FirstTake(pat, parts, star, take).Some?
    ensures |FirstTake(pat, parts, star, take).value| == |bound|
         && NoLonger(FirstTake(pat, parts, star, take).value, bound)
    decreases |pat|, 0, |parts| - take
  {
    var own := Split(bound[0], '.');
    ExpandLength(pat[1..], bound[1..]);
    JoinSplit(bound[0], '.');
    SplitParts(bound[0], '.');
    assert bound[0] in bound && Legal(pat[1..], bound[1..], star);
    assert parts[|own|..] == Expand(pat[1..], bound[1..]) && parts[..|own|] == own;
    MatchComplete(pat[1..], parts[|own|..], star, bound[1..]);
    var name, rest := Join(parts[..take], '.'), MatchParts(pat[1..], parts[take..], star);
    if name == "" || (!star && STAR in parts[..take]) || rest.None? {
      assert take != |own|;
      TakeComplete(pat, parts, star, bound, take + 1);
    } else {
      assert parts[..take] == own[..take];
      SplitJoin(parts[..take], '.');
      MatchLength(pat[1..], parts[take..], star);
    }
  }

  lemma {:induction false} MatchLength(pat: seq<string>, parts: seq<string>, star: bool)
    ensures MatchParts(pat, parts, star).Some? ==> |MatchParts(pat, parts, star).value| == Stars(pat)
    decreases |pat|, 1, 0
  {
    if pat != [] && parts != [] {
      if pat[0] == STAR {
        TakeLength(pat, parts, star, 1);
      } else {
        MatchLength(pat[1..], parts[1..], star);
      }
    }
  }

  lemma {:induction false} TakeLength(pat: seq<string>, parts: seq<string>, star: bool, take: nat)
    requires pat != [] && pat[0] == STAR && take >= 1
    ensures FirstTake(pat, parts, star, take).Some? ==> |FirstTake(pat, parts, star, take).value| == Stars(pat)
    decreases |pat|, 0, |parts| - take
  {
    if take + |pat| - 1 <= |parts| {
      TakeLength(pat, parts, star, take + 1);
      MatchLength(pat[1..], parts[take..], star);
    }
  }

  /** What a match yields is legal and prints the name it matched. */
  lemma {:induction false} MatchedNamePrints(k: KeySpec, name: string)
    requires MatchName(k, name).Some?
    ensures var bound := MatchName(k, name).value;
            Legal(Split(k.name, '.'), bound, k.starInstance) && BindName(k, bound) == name
  {
    SplitParts(name, '.');
    MatchSound(Split(k.name, '.'), Split(name, '.'), k.starInstance);
    PrintsIffParts(k, MatchName(k, name).value, name);
  }

  /** A name some legal binding prints is matched, by a binding that is no longer at the first
      wildcard where the two differ. */
  lemma {:induction false} PrintableNameMatches(k: KeySpec, bound: seq<string>, name: string)
    requires Legal(Split(k.name, '.'), bound, k.starInstance) && BindName(k, bound) == name
    ensures MatchName(k, name).Some?
    ensures |MatchName(k, name).value| == |bound| && NoLonger(MatchName(k, name).value, bound)
  {
    PrintsIffParts(k, bound, name);
    MatchComplete(Split(k.name, '.'), Split(name, '.'), k.starInstance, bound);
  }

  lemma {:induction false} OneStarDetermines(pat: seq<string>, a: seq<string>, b: seq<string>)
    requires Stars(pat) == |a| == |b| <= 1 && Expand(pat, a) == Expand(pat, b)
    ensures a == b
  {
    if pat == [] {
    } else if pat[0] == STAR {
      NoStars(pat[1..]);
      assert a[1..] == b[1..] == [];
      var x, y, tail := Split(a[0], '.'), Split(b[0], '.'), Expand(pat[1..], []);
      assert |x + tail| == |y + tail|;
      assert x == (x + tail)[..|x|] && y == (y + tail)[..|y|];
      JoinSplit(a[0], '.');
      JoinSplit(b[0], '.');
    } else {
      assert Expand(pat, a)[1..] == Expand(pat[1..], a) && Expand(pat, b)[1..] == Expand(pat[1..], b);
      OneStarDetermines(pat[1..], a, b);
    }
  }

  lemma {:induction false} NoStars(pat: seq<string>)
    ensures Stars(pat) == 0 ==> Expand(pat, []) == pat
  {
    if pat != [] {
      NoStars(pat[1..]);
    }
  }

  /** With a single wildcard the match is exactly the binding that prints the name. */
  lemma {:induction false} SingleWildcardExact(k: KeySpec, bound: seq<string>)
    requires Stars(Split(k.name, '.')) == 1 && Legal(Split(k.name, '.'), bound, k.starInstance)
    ensures MatchName(k, BindName(k, bound)) == Some(bound)
  {
    var name := BindName(k, bound);
    PrintableNameMatches(k, bound, name);
    MatchedNamePrints(k, name);
    PrintsIffParts(k, bound, name);
    PrintsIffParts(k, MatchName(k, name).value, name);
    OneStarDetermines(Split(k.name, '.'), bound, MatchName(k, name).value);
  }

  // ----- when a printed name determines the binding -----

  /** No two legal bindings of the key print one name. */
  ghost predicate Unambiguous(k: KeySpec)
  {
    var pat := Split(k.name, '.');
    forall a, b | Legal(pat, a, k.starInstance) && Legal(pat, b, k.starInstance) && BindName(k, a) == BindName(k, b) ::
      a == b
  }

  /** The fixed parts before the next wildcard. */
  function Fixed(pat: seq<string>): (fixed: seq<string>)
    requires Stars(pat) >= 1
    ensures |fixed| < |pat| && pat[..|fixed|] == fixed && pat[|fixed|] == STAR && STAR !in fixed
    ensures Stars(pat) == 1 + Stars(pat[|fixed| + 1..])
  {
    if pat[0] == STAR then [] else
    var rest := Fixed(pat[1..]);
    assert pat[1..][|rest| + 1..] == pat[|rest| + 2..];
    [pat[0]] + rest
  }

  function Exes(n: nat): (bound: seq<string>)
    ensures |bound| == n && forall b | b in bound :: b == "x"
  {
    if n == 0 then [] else ["x"] + Exes(n - 1)
  }

  /** Fixed parts between two `x`. */
  function Long(fixed: seq<string>): seq<string> { ["x"] + fixed + ["x"] }

  /** Two bindings of the first two wildcards: `x` and the longer text, or the other way round. */
  function TwoWays(pat: seq<string>, swapped: bool): seq<string>
    requires Stars(pat) >= 2
  {
    var rest := pat[|Fixed(pat)| + 1..];
    var long, xs := Join(Long(Fixed(rest)), '.'), Exes(Stars(pat) - 2);
    if swapped then [long] + (["x"] + xs) else ["x"] + ([long] + xs)
  }

  lemma {:induction false} ExpandFixed(pat: seq<string>, v: string, bound: seq<string>)
    requires Stars(pat) >= 1 && |bound| == Stars(pat) - 1
    ensures Expand(pat, [v] + bound) == Fixed(pat) + (Split(v, '.') + Expand(pat[|Fixed(pat)| + 1..], bound))
  {
    assert ([v] + bound)[1..] == bound;
    if pat[0] != STAR {
      ExpandFixed(pat[1..], v, bound);
      var n := |Fixed(pat[1..])|;
      assert pat[1..][n + 1..] == pat[n + 2..];
    } else {
      assert Fixed(pat) == [] && pat[0 + 1..] == pat[1..];
    }
  }

  /** What the first two wildcards and the rest expand to. */
  lemma {:induction false} ExpandTwo(pat: seq<string>, rest: seq<string>, tail: seq<string>, u: string, v: string,
                                     xs: seq<string>)
    requires Stars(pat) >= 2 && rest == pat[|Fixed(pat)| + 1..] && tail == rest[|Fixed(rest)| + 1..]
    requires |xs| == Stars(pat) - 2
    ensures Expand(pat, [u] + ([v] + xs))
         == Fixed(pat) + (Split(u, '.') + (Fixed(rest) + (Split(v, '.') + Expand(tail, xs))))
  {
    ExpandFixed(pat, u, [v] + xs);
    ExpandFixed(rest, v, xs);
  }

  lemma {:induction false} PlainLong(fixed: seq<string>)
    requires Plain(fixed) && STAR !in fixed
    ensures Split(Join(Long(fixed), '.'), '.') == Long(fixed) && LegalOne(Join(Long(fixed), '.'), false)
  {
    var parts := Long(fixed);
    SplitJoin(parts, '.');
    SplitPlain("", '.');
    assert STAR !in parts;
  }

  /** The longer text of the two ways, and `x`. */
  lemma {:induction false} WaysTexts(pat: seq<string>, rest: seq<string>, long: string)
    requires Plain(pat) && Stars(pat) >= 2
    requires rest == pat[|Fixed(pat)| + 1..] && long == Join(Long(Fixed(rest)), '.')
    ensures Split(long, '.') == Long(Fixed(rest)) && LegalOne(long, false)
    ensures Split("x", '.') == ["x"] && LegalOne("x", false)
  {
    forall p | p in Fixed(rest) ensures '.' !in p {
      assert p in rest && p in pat;
    }
    PlainLong(Fixed(rest));
    SplitPlain("x", '.');
  }

  lemma {:induction false} TwoWaysLegal(pat: seq<string>, swapped: bool, star: bool)
    requires Plain(pat) && Stars(pat) >= 2
    ensures Legal(pat, TwoWays(pat, swapped), star)
  {
    var rest := pat[|Fixed(pat)| + 1..];
    var long := Join(Long(Fixed(rest)), '.');
    WaysTexts(pat, rest, long);
    WaysLegal(long, Exes(Stars(pat) - 2), swapped, star);
  }

  lemma {:induction false} WaysLegal(long: string, xs: seq<string>, swapped: bool, star: bool)
    requires LegalOne(long, false) && LegalOne("x", false) && forall b | b in xs :: b == "x"
    ensures forall b | b in (if swapped then [long] + (["x"] + xs) else ["x"] + ([long] + xs)) :: LegalOne(b, star)
  {
  }

  lemma {:induction false} Swapped(pat: seq<string>, rest: seq<string>, u: string, v: string, xs: seq<string>)
    requires Stars(pat) >= 2 && rest == pat[|Fixed(pat)| + 1..] && |xs| == Stars(pat) - 2
    requires Split(u, '.') == ["x"] && Split(v, '.') == Long(Fixed(rest))
    ensures Expand(pat, [u] + ([v] + xs)) == Expand(pat, [v] + ([u] + xs))
  {
    var tail := rest[|Fixed(rest)| + 1..];
    ExpandTwo(pat, rest, tail, u, v, xs);
    ExpandTwo(pat, rest, tail, v, u, xs);
    EitherWay(Fixed(pat), Fixed(rest), Expand(tail, xs));
  }

  lemma {:induction false} EitherWay(head: seq<string>, fixed: seq<string>, tail: seq<string>)
    ensures head + (["x"] + (fixed + (Long(fixed) + tail))) == head + (Long(fixed) + (fixed + (["x"] + tail)))
  {
    assert ["x"] + (fixed + Long(fixed)) == Long(fixed) + (fixed + ["x"]);
    assert ["x"] + (fixed + (Long(fixed) + tail)) == ["x"] + (fixed + Long(fixed)) + tail;
    assert Long(fixed) + (fixed + (["x"] + tail)) == Long(fixed) + (fixed + ["x"]) + tail;
  }

  /** Both ways round the first two wildcards print the same parts. */
  lemma {:induction false} TwoWaysExpand(pat: seq<string>)
    requires Plain(pat) && Stars(pat) >= 2
    ensures |TwoWays(pat, false)| == |TwoWays(pat, true)| == Stars(pat)
    ensures Expand(pat, TwoWays(pat, false)) == Expand(pat, TwoWays(pat, true))
    ensures TwoWays(pat, false)[0] == "x" && |Split(TwoWays(pat, true)[0], '.')| > |Split("x", '.')|
  {
    var rest := pat[|Fixed(pat)| + 1..];
    var long, xs := Join(Long(Fixed(rest)), '.'), Exes(Stars(pat) - 2);
    WaysTexts(pat, rest, long);
    Swapped(pat, rest, "x", long, xs);
  }

  /** A name determines the binding that prints it exactly when the pattern has at most one wildcard. */
  lemma {:induction false} UnambiguousIff(k: KeySpec)
    ensures Unambiguous(k) <==> Stars(Split(k.name, '.')) <= 1
  {
    var pat := Split(k.name, '.');
    SplitParts(k.name, '.');
    if Stars(pat) <= 1 {
      forall a, b | Legal(pat, a, k.starInstance) && Legal(pat, b, k.starInstance) && BindName(k, a) == BindName(k, b)
        ensures a == b
      {
        PrintsIffParts(k, a, BindName(k, a));
        PrintsIffParts(k, b, BindName(k, a));
        OneStarDetermines(pat, a, b);
      }
    } else {
      TwoWildcardsAmbiguous(k);
    }
  }

  lemma {:induction false} ShorterFirst(a: seq<string>, b: seq<string>)
    requires |a| == |b| > 0 && |Split(b[0], '.')| > |Split(a[0], '.')|
    ensures a != b && !NoLonger(b, a)
  {
  }

  /** With more wildcards two legal bindings, told apart by the first, print one name; the match is the
      one that gives the first fewer parts. */
  lemma {:induction false} TwoWildcardsAmbiguous(k: KeySpec)
    requires Stars(Split(k.name, '.')) >= 2
    ensures var pat := Split(k.name, '.');
            var a, b := TwoWays(pat, false), TwoWays(pat, true);
            && a != b && Legal(pat, a, k.starInstance) && Legal(pat, b, k.starInstance)
            && BindName(k, a) == BindName(k, b) && !NoLonger(b, a)
  {
    var pat := Split(k.name, '.');
    SplitParts(k.name, '.');
    var a, b := TwoWays(pat, false), TwoWays(pat, true);
    TwoWaysLegal(pat, false, k.starInstance);
    TwoWaysLegal(pat, true, k.starInstance);
    TwoWaysExpand(pat);
    PrintsIffParts(k, a, BindName(k, a));
    PrintsIffParts(k, b, BindName(k, a));
    ShorterFirst(a, b);
  }

  // ----- paths -----

  predicate SegmentFits(p: string, s: string, star: bool)
  {
    if p == STAR then s != "" && (s != STAR || star) else p == s
  }

  /** `match_path`: whether the key's path pattern takes this path, segment by segment. */
  predicate TakesPath(k: KeySpec, path: Path)
  {
    |path| == |k.path| && forall i | 0 <= i < |path| :: SegmentFits(k.path[i], path[i], k.starInstance)
  }
}
