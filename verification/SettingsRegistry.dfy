/** Several components' keys as one tree, and the fragments emitted from it (`registry.rs`). */
module SettingsRegistry {
  import opened Basics
  import opened SettingsValues
  import opened SettingsSchema
  import opened SettingsLoad
  import opened SettingsPaths
  import opened SettingsLayers

  /** A key with its wildcards bound. */
  datatype Bound = Bound(k: KeySpec, bound: seq<string>)

  function PathOf(b: Bound): Path { BindPath(b.k, b.bound) }

  /** Whether a dotted name falls under a prefix: equal, or below it at a dot. */
  predicate Under(name: string, prefix: string)
  {
    prefix == "" || name == prefix || (prefix <= name && |name| > |prefix| && name[|prefix|] == '.')
  }

  /** A key by its concrete name; fixed names win over patterns. */
  function Lookup(keys: seq<KeySpec>, name: string): Option<Bound>
  {
    var fixed := LookupFixed(keys, name);
    if fixed.Some? then fixed else LookupPattern(keys, name)
  }

  function LookupFixed(keys: seq<KeySpec>, name: string): (r: Option<Bound>)
    ensures r.Some? ==> r.value.k in keys && '*' !in r.value.k.name && r.value.k.name == name && r.value.bound == []
    ensures r.None? ==> forall k | k in keys && '*' !in k.name :: k.name != name
  {
    if keys == [] then None
    else if '*' !in keys[0].name && keys[0].name == name then Some(Bound(keys[0], []))
    else LookupFixed(keys[1..], name)
  }

  function LookupPattern(keys: seq<KeySpec>, name: string): (r: Option<Bound>)
    ensures r.Some? ==> r.value.k in keys && '*' in r.value.k.name && MatchName(r.value.k, name) == Some(r.value.bound)
    ensures r.None? ==> forall k | k in keys && '*' in k.name :: MatchName(k, name).None?
  {
    if keys == [] then None
    else if '*' in keys[0].name && MatchName(keys[0], name).Some?
    then Some(Bound(keys[0], MatchName(keys[0], name).value))
    else LookupPattern(keys[1..], name)
  }

  lemma {:induction false} NoStarParts(name: string)
    requires '*' !in name
    ensures STAR !in Split(name, '.') && Stars(Split(name, '.')) == 0
    decreases |name|
  {
    NoStarChars(name);
    assert forall p | p in Split(name, '.') :: p != STAR by {
      forall p | p in Split(name, '.') ensures p != STAR {
        assert '*' !in p;
      }
    }
    CountNoStars(Split(name, '.'));
  }

  lemma {:induction false} NoStarChars(name: string)
    requires '*' !in name
    ensures forall p | p in Split(name, '.') :: '*' !in p
    decreases |name|
  {
    if name != "" {
      NoStarChars(name[1..]);
    }
  }

  lemma {:induction false} CountNoStars(pat: seq<string>)
    requires STAR !in pat
    ensures Stars(pat) == 0 && BindParts(pat, []) == pat
  {
    if pat != [] {
      CountNoStars(pat[1..]);
    }
  }

  /** A key that is found prints the name it was looked up by. */
  lemma {:induction false} LookedUpPrints(keys: seq<KeySpec>, name: string)
    requires Lookup(keys, name).Some?
    ensures BindName(Lookup(keys, name).value.k, Lookup(keys, name).value.bound) == name
  {
    var b := Lookup(keys, name).value;
    if LookupFixed(keys, name).Some? {
      NoStarParts(name);
      CountNoStars(Split(name, '.'));
      JoinSplit(name, '.');
    } else {
      MatchedNamePrints(b.k, name);
    }
  }

  /** Some legal binding of the pattern prints the name. */
  ghost predicate Prints(k: KeySpec, name: string)
  {
    exists b :: Legal(Split(k.name, '.'), b, k.starInstance) && BindName(k, b) == name
  }

  lemma {:induction false} PrintsIff(k: KeySpec, name: string)
    ensures Prints(k, name) <==> MatchName(k, name).Some?
  {
    if MatchName(k, name).Some? { MatchedNamePrints(k, name); }
    if b :| Legal(Split(k.name, '.'), b, k.starInstance) && BindName(k, b) == name {
      PrintableNameMatches(k, b, name);
    }
  }

  /** A name is found exactly when it is a fixed key's or some legal binding of a pattern prints it, and a fixed
      key wins over every pattern. */
  lemma {:induction false} LookupIff(keys: seq<KeySpec>, name: string)
    ensures Lookup(keys, name).Some? <==>
              exists k :: k in keys && if '*' in k.name then Prints(k, name) else k.name == name
    ensures (exists k :: k in keys && '*' !in k.name && k.name == name) ==>
              Lookup(keys, name).Some? && var b := Lookup(keys, name).value;
              b.k in keys && '*' !in b.k.name && b.k.name == name && b.bound == []
  {
    forall k | k in keys && '*' in k.name ensures Prints(k, name) <==> MatchName(k, name).Some? {
      PrintsIff(k, name);
    }
  }

  // ----- the bindings a layer gives a key -----

  /** `collect_bindings`: every way the wildcards of `pat` can be filled from the mapping's own keys. */
  function Collect(v: Value, pat: Path, bound: seq<string>, order: map<Key, Value> -> seq<Key>): seq<seq<string>>
    decreases |pat|, 1, 0
  {
    if pat == [] then [bound]
    else if !v.Mapping? then []
    else if pat[0] == STAR then CollectEach(v, order(v.m), pat, bound, order)
    else if Text(pat[0]) in v.m then Collect(v.m[Text(pat[0])], pat[1..], bound, order)
    else []
  }

  function CollectEach(v: Value, todo: seq<Key>, pat: Path, bound: seq<string>,
                       order: map<Key, Value> -> seq<Key>): seq<seq<string>>
    requires v.Mapping? && pat != []
    decreases |pat|, 0, |todo|
  {
    if todo == [] then []
    else
      (if todo[0].Text? && todo[0] in v.m then Collect(v.m[todo[0]], pat[1..], bound + [todo[0].s], order) else [])
      + CollectEach(v, todo[1..], pat, bound, order)
  }

  /** A binding is collected exactly when it fills every wildcard and the value has something there. */
  lemma {:induction false} CollectExact(v: Value, pat: Path, bound: seq<string>, order: map<Key, Value> -> seq<Key>,
                                        b: seq<string>)
    requires Lists(order)
    ensures bound + b in Collect(v, pat, bound, order)
       <==> |b| == Stars(pat) && TextAt(v, BindParts(pat, b)).Some?
    decreases |pat|, 1, 0
  {
    if pat == [] {
      assert bound + b == bound <==> b == [] by {
        assert |bound + b| == |bound| + |b|;
        if b == [] { assert bound + b == bound; }
      }
    } else if v.Mapping? {
      if pat[0] == STAR {
        CollectEachExact(v, order(v.m), pat, bound, order, b);
        if b != [] {
          assert BindParts(pat, b)[1..] == BindParts(pat[1..], b[1..]);
        }
      } else if Text(pat[0]) in v.m {
        CollectExact(v.m[Text(pat[0])], pat[1..], bound, order, b);
        assert BindParts(pat, b)[1..] == BindParts(pat[1..], b);
      }
    }
  }

  lemma {:induction false} CollectEachExact(v: Value, todo: seq<Key>, pat: Path, bound: seq<string>,
                                            order: map<Key, Value> -> seq<Key>, b: seq<string>)
    requires Lists(order) && v.Mapping? && pat != [] && pat[0] == STAR
    ensures bound + b in CollectEach(v, todo, pat, bound, order)
       <==> b != [] && Text(b[0]) in todo && Text(b[0]) in v.m && |b| == Stars(pat)
            && TextAt(v.m[Text(b[0])], BindParts(pat[1..], b[1..])).Some?
    decreases |pat|, 0, |todo|
  {
    if todo != [] {
      CollectEachExact(v, todo[1..], pat, bound, order, b);
      if todo[0].Text? && todo[0] in v.m {
        var seg, below := todo[0].s, v.m[todo[0]];
        if b != [] && b[0] == seg {
          assert bound + b == (bound + [seg]) + b[1..];
          CollectExact(below, pat[1..], bound + [seg], order, b[1..]);
        } else {
          CollectExtends(below, pat[1..], bound + [seg], order);
          assert forall x | x in Collect(below, pat[1..], bound + [seg], order) :: x[|bound|] == seg;
          assert b != [] ==> (bound + b)[|bound|] == b[0];
        }
      }
    }
  }

  lemma {:induction false} CollectExtends(v: Value, pat: Path, bound: seq<string>, order: map<Key, Value> -> seq<Key>)
    ensures forall x | x in Collect(v, pat, bound, order) :: bound <= x
    decreases |pat|, 1, 0
  {
    if pat != [] && v.Mapping? {
      if pat[0] == STAR {
        CollectEachExtends(v, order(v.m), pat, bound, order);
      } else if Text(pat[0]) in v.m {
        CollectExtends(v.m[Text(pat[0])], pat[1..], bound, order);
      }
    }
  }

  lemma {:induction false} CollectEachExtends(v: Value, todo: seq<Key>, pat: Path, bound: seq<string>,
                                              order: map<Key, Value> -> seq<Key>)
    requires v.Mapping? && pat != []
    ensures forall x | x in CollectEach(v, todo, pat, bound, order) :: bound <= x
    decreases |pat|, 0, |todo|
  {
    if todo != [] {
      CollectEachExtends(v, todo[1..], pat, bound, order);
      if todo[0].Text? && todo[0] in v.m {
        CollectExtends(v.m[todo[0]], pat[1..], bound + [todo[0].s], order);
      }
    }
  }

  function Unseen(list: seq<seq<string>>, seen: seq<seq<string>>): (out: seq<seq<string>>)
    ensures forall b :: b in seen + out <==> b in seen + list
  {
    if list == [] then []
    else if list[0] in seen then Unseen(list[1..], seen)
    else
      var rest := Unseen(list[1..], seen + [list[0]]);
      assert forall b :: b in seen + ([list[0]] + rest) <==> b in (seen + [list[0]]) + rest;
      [list[0]] + rest
  }

  function CollectLayers(k: KeySpec, layers: seq<Layer>, order: map<Key, Value> -> seq<Key>): seq<seq<string>>
  {
    if layers == [] then []
    else
      (if layers[0].file == k.file && Admits(layers[0].scope, k.scope)
       then Collect(Mapping(layers[0].accepted), k.path, [], order) else [])
      + CollectLayers(k, layers[1..], order)
  }

  function Declared(k: KeySpec): (list: seq<seq<string>>)
    ensures |list| == |k.instances| && forall i | 0 <= i < |list| :: list[i] == [k.instances[i]]
  {
    seq(|k.instances|, i requires 0 <= i < |k.instances| => [k.instances[i]])
  }

  /** `bindings`: a key's declared instances, then any a layer sets, each once. */
  function Bindings(k: KeySpec, layers: seq<Layer>, order: map<Key, Value> -> seq<Key>): seq<seq<string>>
  {
    if '*' !in k.name then [[]]
    else
      Unseen(Declared(k) + CollectLayers(k, layers, order), [])
  }

  lemma {:induction false} CollectLayersExact(k: KeySpec, layers: seq<Layer>, order: map<Key, Value> -> seq<Key>,
                                              b: seq<string>)
    requires Lists(order)
    ensures b in CollectLayers(k, layers, order) <==>
              exists i :: 0 <= i < |layers| && layers[i].file == k.file && Admits(layers[i].scope, k.scope)
                          && |b| == Stars(k.path) && TextAt(Mapping(layers[i].accepted), BindPath(k, b)).Some?
  {
    if layers != [] {
      CollectLayersExact(k, layers[1..], order, b);
      CollectExact(Mapping(layers[0].accepted), k.path, [], order, b);
      assert [] + b == b;
      if b in CollectLayers(k, layers[1..], order) {
        var i :| 0 <= i < |layers[1..]| && layers[1..][i].file == k.file && Admits(layers[1..][i].scope, k.scope)
                 && |b| == Stars(k.path) && TextAt(Mapping(layers[1..][i].accepted), BindPath(k, b)).Some?;
        assert layers[i + 1] == layers[1..][i];
      }
    }
  }

  /** What a key may be bound to: nothing when its name is fixed; for a pattern a declared instance, or what
      some layer that may hold the key sets. */
  ghost predicate IsBinding(k: KeySpec, layers: seq<Layer>, b: seq<string>)
  {
    if '*' !in k.name then b == []
    else
      || (exists i :: 0 <= i < |k.instances| && b == [k.instances[i]])
      || (exists i :: 0 <= i < |layers| && layers[i].file == k.file && Admits(layers[i].scope, k.scope)
                      && |b| == Stars(k.path) && TextAt(Mapping(layers[i].accepted), BindPath(k, b)).Some?)
  }

  /** A key's bindings are exactly these. */
  lemma {:induction false} BindingsExact(k: KeySpec, layers: seq<Layer>, order: map<Key, Value> -> seq<Key>,
                                         b: seq<string>)
    requires Lists(order)
    ensures b in Bindings(k, layers, order) <==> IsBinding(k, layers, b)
  {
    if '*' in k.name {
      CollectLayersExact(k, layers, order, b);
      var own := Declared(k);
      assert b in Bindings(k, layers, order) <==> b in [] + (own + CollectLayers(k, layers, order)) by {
        assert [] + Bindings(k, layers, order) == Bindings(k, layers, order);
      }
      assert forall i | 0 <= i < |own| :: own[i] == [k.instances[i]];
    }
  }

  lemma {:induction false} UnseenFirst(own: seq<seq<string>>, more: seq<seq<string>>, seen: seq<seq<string>>)
    requires Distinct(own) && forall b | b in own :: b !in seen
    ensures own <= Unseen(own + more, seen)
  {
    if own != [] {
      var list := own + more;
      assert own[0] in own && list[1..] == own[1..] + more;
      forall b | b in own[1..] ensures b !in seen + [own[0]] { assert b in own; }
      UnseenFirst(own[1..], more, seen + [own[0]]);
    }
  }

  /** The declared instances come first, as they are declared. */
  lemma {:induction false} DeclaredFirst(k: KeySpec, layers: seq<Layer>, order: map<Key, Value> -> seq<Key>, i: nat)
    requires '*' in k.name && Distinct(k.instances) && i < |k.instances|
    ensures i < |Bindings(k, layers, order)| && Bindings(k, layers, order)[i] == [k.instances[i]]
  {
    var own := Declared(k);
    forall m, n | 0 <= m < n < |own| ensures own[m] != own[n] {
      assert own[m][0] == k.instances[m] && own[n][0] == k.instances[n];
    }
    UnseenFirst(own, CollectLayers(k, layers, order), []);
    assert own[i] == Bindings(k, layers, order)[i];
  }

  /** `concrete`: every bound key under a prefix, in schema order. */
  function Concrete(keys: seq<KeySpec>, prefix: string, layers: seq<Layer>,
                    order: map<Key, Value> -> seq<Key>): seq<Bound>
  {
    if keys == [] then []
    else
      var front, last := keys[..|keys| - 1], keys[|keys| - 1];
      Concrete(front, prefix, layers, order) + Matching(last, Bindings(last, layers, order), prefix)
  }

  predicate Selects(prefix: string, b: Bound)
  {
    (prefix != "" && b.k.section == prefix) || Under(BindName(b.k, b.bound), prefix)
  }

  function Matching(k: KeySpec, bindings: seq<seq<string>>, prefix: string): seq<Bound>
  {
    if bindings == [] then []
    else
      var b := Bound(k, bindings[|bindings| - 1]);
      Matching(k, bindings[..|bindings| - 1], prefix) + (if Selects(prefix, b) then [b] else [])
  }

  /** The inner loop of `concrete`. */
  method AddMatching(k: KeySpec, bindings: seq<seq<string>>, prefix: string, before: seq<Bound>)
    returns (out: seq<Bound>)
    ensures out == before + Matching(k, bindings, prefix)
  {
    out := before;
    for j := 0 to |bindings|
      invariant out == before + Matching(k, bindings[..j], prefix)
    {
      assert bindings[..j + 1][..j] == bindings[..j];
      var b := Bound(k, bindings[j]);
      if Selects(prefix, b) { out := out + [b]; }
    }
    assert bindings[..|bindings|] == bindings;
  }

  method ConcreteKeys(keys: seq<KeySpec>, prefix: string, layers: seq<Layer>, order: map<Key, Value> -> seq<Key>)
    returns (out: seq<Bound>)
    ensures out == Concrete(keys, prefix, layers, order)
  {
    out := [];
    for i := 0 to |keys|
      invariant out == Concrete(keys[..i], prefix, layers, order)
    {
      out := AddMatching(keys[i], Bindings(keys[i], layers, order), prefix, out);
      assert keys[..i + 1][..i] == keys[..i];
    }
    assert keys[..|keys|] == keys;
  }

  // ----- the keys selected bind unrelated paths -----

  lemma {:induction false} UnseenDistinct(list: seq<seq<string>>, seen: seq<seq<string>>)
    ensures Distinct(Unseen(list, seen)) && forall b | b in Unseen(list, seen) :: b !in seen
  {
    if list != [] {
      UnseenDistinct(list[1..], if list[0] in seen then seen else seen + [list[0]]);
      if list[0] !in seen {
        var rest := Unseen(list[1..], seen + [list[0]]);
        assert list[0] in seen + [list[0]] && list[0] !in rest;
        DistinctConcat([list[0]], rest);
      }
    }
  }

  lemma {:induction false} BindingsDistinct(k: KeySpec, layers: seq<Layer>, order: map<Key, Value> -> seq<Key>)
    ensures Distinct(Bindings(k, layers, order))
  {
    if '*' in k.name {
      UnseenDistinct(Declared(k) + CollectLayers(k, layers, order), []);
    }
  }

  /** Two of a key's bindings bind unrelated paths. */
  lemma {:induction false} BindingsApart(k: KeySpec, layers: seq<Layer>, order: map<Key, Value> -> seq<Key>,
                                         a: seq<string>, b: seq<string>)
    requires Lists(order) && Formed(k) && a in Bindings(k, layers, order) && b in Bindings(k, layers, order) && a != b
    ensures !Related(BindPath(k, a), BindPath(k, b))
  {
    BindingsExact(k, layers, order, a);
    BindingsExact(k, layers, order, b);
    BoundApart(k.path, a, b);
  }

  /** No two of the keys bind related paths in one file. */
  predicate BoundsApart(list: seq<Bound>)
  {
    forall i, j | 0 <= i < j < |list| && Stores(list[i], list[j]) :: !Related(PathOf(list[i]), PathOf(list[j]))
  }

  /** Both are stored, in one file. */
  predicate Stores(a: Bound, b: Bound) { a.k.file == b.k.file && a.k.computed.None? && b.k.computed.None? }

  lemma {:induction false} BoundsConcat(a: seq<Bound>, b: seq<Bound>)
    requires BoundsApart(a) && BoundsApart(b)
    requires forall x, y | x in a && y in b && Stores(x, y) :: !Related(PathOf(x), PathOf(y))
    ensures BoundsApart(a + b)
  {
    var ab := a + b;
    forall i, j | 0 <= i < j < |ab| && Stores(ab[i], ab[j]) ensures !Related(PathOf(ab[i]), PathOf(ab[j])) {
      if i < |a| <= j {
        assert ab[i] in a && ab[j] in b;
      } else if i >= |a| {
        assert ab[i] == b[i - |a|] && ab[j] == b[j - |a|];
      }
    }
  }

  lemma {:induction false} MatchingIff(k: KeySpec, bindings: seq<seq<string>>, prefix: string, b: Bound)
    ensures b in Matching(k, bindings, prefix) <==> b.k == k && b.bound in bindings && Selects(prefix, b)
  {
    if bindings != [] {
      var last := |bindings| - 1;
      assert bindings == bindings[..last] + [bindings[last]];
      MatchingIff(k, bindings[..last], prefix, b);
    }
  }

  lemma {:induction false} MatchingApart(k: KeySpec, bindings: seq<seq<string>>, prefix: string)
    requires Distinct(bindings)
    requires forall a, b | a in bindings && b in bindings && a != b :: !Related(BindPath(k, a), BindPath(k, b))
    ensures BoundsApart(Matching(k, bindings, prefix))
  {
    if bindings != [] {
      var front, last := bindings[..|bindings| - 1], bindings[|bindings| - 1];
      MatchingApart(k, front, prefix);
      var mine := if Selects(prefix, Bound(k, last)) then [Bound(k, last)] else [];
      forall x, y | x in Matching(k, front, prefix) && y in mine && Stores(x, y)
        ensures !Related(PathOf(x), PathOf(y))
      {
        MatchingIff(k, front, prefix, x);
        assert x.bound in front && x.bound in bindings && last in bindings;
      }
      BoundsConcat(Matching(k, front, prefix), mine);
    }
  }

  lemma {:induction false} ConcreteHolds(keys: seq<KeySpec>, prefix: string, layers: seq<Layer>,
                                         order: map<Key, Value> -> seq<Key>, b: Bound)
    ensures b in Concrete(keys, prefix, layers, order)
       <==> b.k in keys && b.bound in Bindings(b.k, layers, order) && Selects(prefix, b)
  {
    if keys != [] {
      var front, last := keys[..|keys| - 1], keys[|keys| - 1];
      var mine := Matching(last, Bindings(last, layers, order), prefix);
      assert Concrete(keys, prefix, layers, order) == Concrete(front, prefix, layers, order) + mine;
      FrontOrLast(keys, front, last, b.k);
      ConcreteHolds(front, prefix, layers, order, b);
      MatchingIff(last, Bindings(last, layers, order), prefix, b);
    }
  }

  lemma {:induction false} FrontOrLast(keys: seq<KeySpec>, front: seq<KeySpec>, last: KeySpec, k: KeySpec)
    requires keys != [] && front == keys[..|keys| - 1] && last == keys[|keys| - 1]
    ensures k in keys <==> k in front || k == last
  {
    assert keys == front + [last];
  }

  /** The prefix is empty, names the key's section, or is the first parts of the key's bound name. */
  predicate Chosen(prefix: string, b: Bound)
  {
    prefix == "" || b.k.section == prefix || Split(prefix, '.') <= Split(BindName(b.k, b.bound), '.')
  }

  lemma {:induction false} UnderParts(name: string, prefix: string)
    requires prefix <= name && |name| > |prefix| && name[|prefix|] == '.'
    ensures Split(prefix, '.') <= Split(name, '.')
  {
    assert name == prefix + ['.'] + name[|prefix| + 1..];
    SplitConcat(prefix, '.', name[|prefix| + 1..]);
  }

  lemma {:induction false} PartsUnder(name: string, prefix: string, more: seq<string>)
    requires Split(name, '.') == Split(prefix, '.') + more
    ensures Under(name, prefix)
  {
    JoinSplit(prefix, '.');
    JoinSplit(name, '.');
    if more == [] {
      assert Split(name, '.') == Split(prefix, '.');
    } else {
      JoinConcat(Split(prefix, '.'), more, '.');
    }
  }

  lemma {:induction false} UnderIff(name: string, prefix: string)
    ensures Under(name, prefix) <==> prefix == "" || Split(prefix, '.') <= Split(name, '.')
  {
    if prefix <= name && |name| > |prefix| && name[|prefix|] == '.' { UnderParts(name, prefix); }
    var p, n := Split(prefix, '.'), Split(name, '.');
    if p <= n {
      assert n == p + n[|p|..];
      PartsUnder(name, prefix, n[|p|..]);
    }
  }

  /** Exactly the keys' bindings that the prefix chooses are selected. */
  lemma {:induction false} ConcreteIff(keys: seq<KeySpec>, prefix: string, layers: seq<Layer>,
                                       order: map<Key, Value> -> seq<Key>, b: Bound)
    requires Lists(order)
    ensures b in Concrete(keys, prefix, layers, order)
       <==> b.k in keys && IsBinding(b.k, layers, b.bound) && Chosen(prefix, b)
  {
    ConcreteHolds(keys, prefix, layers, order, b);
    BindingsExact(b.k, layers, order, b.bound);
    UnderIff(BindName(b.k, b.bound), prefix);
  }

  ghost predicate PlacedAt(keys: seq<KeySpec>, layers: seq<Layer>, order: map<Key, Value> -> seq<Key>,
                           b: Bound, at: nat, pos: nat)
  {
    && at < |keys| && b.k == keys[at]
    && pos < |Bindings(b.k, layers, order)| && b.bound == Bindings(b.k, layers, order)[pos]
  }

  /** The place of each selected key among the keys, and of its binding among the key's. */
  ghost predicate Placed(keys: seq<KeySpec>, layers: seq<Layer>, order: map<Key, Value> -> seq<Key>,
                         list: seq<Bound>, at: seq<nat>, pos: seq<nat>)
  {
    |at| == |pos| == |list| && forall i | 0 <= i < |list| :: PlacedAt(keys, layers, order, list[i], at[i], pos[i])
  }

  /** The places ascend: key by key, and binding by binding of one key. */
  predicate Ascending(at: seq<nat>, pos: seq<nat>)
    requires |at| == |pos|
  {
    forall i, j | 0 <= i < j < |at| :: at[i] < at[j] || (at[i] == at[j] && pos[i] < pos[j])
  }

  lemma {:induction false} MatchingOrder(k: KeySpec, bindings: seq<seq<string>>, prefix: string) returns (pos: seq<nat>)
    ensures var list := Matching(k, bindings, prefix);
            && |pos| == |list|
            && (forall i | 0 <= i < |pos| :: pos[i] < |bindings| && list[i] == Bound(k, bindings[pos[i]]))
            && forall i, j | 0 <= i < j < |pos| :: pos[i] < pos[j]
  {
    if bindings == [] {
      pos := [];
    } else {
      var last := |bindings| - 1;
      pos := MatchingOrder(k, bindings[..last], prefix);
      assert forall i | 0 <= i < last :: bindings[..last][i] == bindings[i];
      if Selects(prefix, Bound(k, bindings[last])) { pos := pos + [last]; }
    }
  }

  lemma {:induction false} PlacedMore(keys: seq<KeySpec>, front: seq<KeySpec>, layers: seq<Layer>,
                                      order: map<Key, Value> -> seq<Key>, list: seq<Bound>, at: seq<nat>,
                                      pos: seq<nat>, mine: seq<Bound>, last: seq<nat>, more: seq<nat>)
    requires front <= keys && Placed(front, layers, order, list, at, pos)
    requires Placed(keys, layers, order, mine, last, more)
    ensures Placed(keys, layers, order, list + mine, at + last, pos + more)
  {
    var list', at', pos' := list + mine, at + last, pos + more;
    forall i | 0 <= i < |list'| ensures PlacedAt(keys, layers, order, list'[i], at'[i], pos'[i]) {
      if i < |list| {
        assert PlacedAt(front, layers, order, list[i], at[i], pos[i]);
        assert front[at[i]] == keys[at[i]];
      } else {
        assert PlacedAt(keys, layers, order, mine[i - |list|], last[i - |list|], more[i - |list|]);
      }
    }
  }

  lemma {:induction false} AscendingMore(at: seq<nat>, pos: seq<nat>, n: nat, last: seq<nat>, more: seq<nat>)
    requires |at| == |pos| && |last| == |more| && Ascending(at, pos)
    requires (forall i | 0 <= i < |at| :: at[i] < n) && (forall i | 0 <= i < |last| :: last[i] == n)
    requires forall i, j | 0 <= i < j < |more| :: more[i] < more[j]
    ensures Ascending(at + last, pos + more)
  {
    var at', pos' := at + last, pos + more;
    forall i, j | 0 <= i < j < |at'| ensures at'[i] < at'[j] || (at'[i] == at'[j] && pos'[i] < pos'[j]) {
      if j < |at| {
        assert at'[i] == at[i] && at'[j] == at[j] && pos'[i] == pos[i] && pos'[j] == pos[j];
      } else if i < |at| {
        assert at'[i] == at[i] < n == at'[j];
      } else {
        assert pos'[i] == more[i - |at|] && pos'[j] == more[j - |at|];
      }
    }
  }

  /** They are selected in the order the schema lists the keys, each key's bindings in theirs, and none twice. */
  lemma {:induction false} ConcreteOrder(keys: seq<KeySpec>, prefix: string, layers: seq<Layer>,
                                         order: map<Key, Value> -> seq<Key>) returns (at: seq<nat>, pos: seq<nat>)
    ensures Placed(keys, layers, order, Concrete(keys, prefix, layers, order), at, pos) && Ascending(at, pos)
  {
    if keys == [] {
      at, pos := [], [];
    } else {
      var front, last := keys[..|keys| - 1], keys[|keys| - 1];
      at, pos := ConcreteOrder(front, prefix, layers, order);
      var mine := Matching(last, Bindings(last, layers, order), prefix);
      var more := MatchingOrder(last, Bindings(last, layers, order), prefix);
      var here: seq<nat> := seq(|more|, _ => |front|);
      assert Placed(keys, layers, order, mine, here, more);
      PlacedMore(keys, front, layers, order, Concrete(front, prefix, layers, order), at, pos, mine, here, more);
      AscendingMore(at, pos, |front|, here, more);
      at, pos := at + here, pos + more;
    }
  }

  lemma {:induction false} OneKeyApart(k: KeySpec, prefix: string, layers: seq<Layer>,
                                       order: map<Key, Value> -> seq<Key>)
    requires Lists(order) && (k.computed.None? ==> Formed(k))
    ensures BoundsApart(Matching(k, Bindings(k, layers, order), prefix))
  {
    var bindings := Bindings(k, layers, order);
    forall b | b in Matching(k, bindings, prefix) ensures b.k == k { MatchingIff(k, bindings, prefix, b); }
    if k.computed.None? {
      BindingsDistinct(k, layers, order);
      forall a, b | a in bindings && b in bindings && a != b ensures !Related(BindPath(k, a), BindPath(k, b)) {
        BindingsApart(k, layers, order, a, b);
      }
      MatchingApart(k, bindings, prefix);
    }
  }

  lemma {:induction false} ConcreteApart(keys: seq<KeySpec>, prefix: string, layers: seq<Layer>,
                                         order: map<Key, Value> -> seq<Key>)
    requires Lists(order) && KeysApart(keys)
    ensures BoundsApart(Concrete(keys, prefix, layers, order))
  {
    if keys != [] {
      var front, last := keys[..|keys| - 1], keys[|keys| - 1];
      LastApart(keys, front, last);
      ConcreteApart(front, prefix, layers, order);
      var mine := Matching(last, Bindings(last, layers, order), prefix);
      OneKeyApart(last, prefix, layers, order);
      forall x, y | x in Concrete(front, prefix, layers, order) && y in mine && Stores(x, y)
        ensures !Related(PathOf(x), PathOf(y))
      {
        ConcreteHolds(front, prefix, layers, order, x);
        MatchingIff(last, Bindings(last, layers, order), prefix, y);
        ApartBound(x.k.path, x.bound, last.path, y.bound);
      }
      BoundsConcat(Concrete(front, prefix, layers, order), mine);
    }
  }

  // ----- emitting -----

  /** `set_path` of the source; nothing when it meets what is not a mapping. */
  function SetPath(root: Value, path: Path, v: Value): Option<Value>
    requires path != []
    decreases |path|
  {
    var k := Text(path[0]);
    if |path| == 1 then Some(if root.Mapping? then Mapping(root.m[k := v]) else root)
    else if !root.Mapping? then None
    else
      var below := SetPath(if k in root.m then root.m[k] else Mapping(map[]), path[1..], v);
      if below.None? then None else Some(Mapping(root.m[k := below.value]))
  }

  lemma {:induction false} SetPathSets(root: map<Key, Value>, path: Path, v: Value)
    requires path != []
    requires forall i | 0 < i < |path| ::
               TextAt(Mapping(root), path[..i]).Some? ==> TextAt(Mapping(root), path[..i]).value.Mapping?
    ensures SetPath(Mapping(root), path, v) == Some(Mapping(SetIn(root, path, v)))
    decreases |path|
  {
    if |path| > 1 {
      var k := Text(path[0]);
      assert path[..1] == [path[0]] && [path[0]][1..] == [];
      if k in root {
        assert TextAt(Mapping(root), [path[0]]) == Some(root[k]);
        forall i | 0 < i < |path[1..]|
          ensures TextAt(root[k], path[1..][..i]).Some? ==> TextAt(root[k], path[1..][..i]).value.Mapping?
        {
          assert path[..i + 1][1..] == path[1..][..i];
        }
        SetPathSets(root[k].m, path[1..], v);
      } else {
        forall i | 0 < i < |path[1..]|
          ensures TextAt(Mapping(map[]), path[1..][..i]).None?
        {
        }
        SetPathSets(map[], path[1..], v);
      }
    }
  }

  lemma {:induction false} AboveIsMapping(v: Value, p: Path, q: Path)
    requires TextAt(v, p).Some? && q < p
    ensures TextAt(v, q).Some? && TextAt(v, q).value.Mapping?
    decreases |q|
  {
    if q != [] {
      AboveIsMapping(v.m[Text(p[0])], p[1..], q[1..]);
    }
  }

  /** Nothing is in the way of a setting whose path is unrelated to those already there. */
  lemma {:induction false} PathIsFree(list: seq<Setting>, path: Path, v: Value)
    requires forall s | s in list :: s.path != []
    requires PrefixFree(list) && path != [] && forall s | s in list :: !Related(s.path, path)
    ensures SetPath(Mapping(SetAll(map[], list)), path, v) == Some(Mapping(SetIn(SetAll(map[], list), path, v)))
  {
    var root := SetAll(map[], list);
    forall i | 0 < i < |path| && TextAt(Mapping(root), path[..i]).Some?
      ensures TextAt(Mapping(root), path[..i]).value.Mapping?
    {
      var q := path[..i];
      if forall s | s in list :: !Related(s.path, q) {
        SetAllElsewhere(map[], list, q);
      } else {
        var n :| 0 <= n < |list| && Related(list[n].path, q);
        assert list[n] in list;
        assert q <= path && !(list[n].path <= q);
        SetAllAt(map[], list, n);
        AboveIsMapping(Mapping(root), list[n].path, q);
      }
    }
    SetPathSets(root, path, v);
  }

  /** The value a key is emitted with: canonical, or effective over the layers. */
  function ValueOf(b: Bound, layers: Option<seq<Layer>>): Option<Value>
  {
    if b.k.secret || b.k.computed.Some? then None
    else if layers.Some? then Effective(b.k, b.bound, layers.value)
    else b.k.default(b.bound)
  }

  function Emitted(list: seq<Bound>, layers: Option<seq<Layer>>, file: string): seq<Setting>
  {
    if list == [] then []
    else
      var last := list[|list| - 1];
      var v := ValueOf(last, layers);
      Emitted(list[..|list| - 1], layers, file)
        + (if last.k.file == file && v.Some? then [Setting(PathOf(last), v.value)] else [])
  }

  /** Every file's settings are at unrelated paths. */
  ghost predicate Emittable(list: seq<Bound>, layers: Option<seq<Layer>>)
  {
    && (forall b | b in list && ValueOf(b, layers).Some? :: b.k.path != [])
    && (forall file :: PrefixFree(Emitted(list, layers, file)))
  }

  lemma {:induction false} EmittedPaths(list: seq<Bound>, layers: Option<seq<Layer>>, file: string)
    requires forall b | b in list && ValueOf(b, layers).Some? :: b.k.path != []
    ensures forall s | s in Emitted(list, layers, file) :: s.path != []
  {
    if list != [] {
      EmittedPaths(list[..|list| - 1], layers, file);
    }
  }

  /** The key is emitted with the value `v`: it is no secret and not computed, and `v` is what it resolves to
      over the layers, or its default without them. */
  predicate EmitsAs(b: Bound, layers: Option<seq<Layer>>, v: Value)
  {
    && !b.k.secret && b.k.computed.None?
    && (if layers.Some? then Effective(b.k, b.bound, layers.value) else b.k.default(b.bound)) == Some(v)
  }

  /** A file's settings are exactly the values its keys are emitted with. */
  lemma {:induction false} EmittedIff(list: seq<Bound>, layers: Option<seq<Layer>>, file: string, s: Setting)
    ensures s in Emitted(list, layers, file)
       <==> exists b :: b in list && b.k.file == file && EmitsAs(b, layers, s.value) && s.path == PathOf(b)
  {
    if list != [] {
      var front, last := list[..|list| - 1], list[|list| - 1];
      assert list == front + [last];
      assert forall b :: b in list <==> b in front || b == last;
      EmittedIff(front, layers, file, s);
    }
  }

  lemma {:induction false} SettingLast(list: seq<Setting>, s: Setting)
    requires PrefixFree(list) && forall t | t in list :: !Related(t.path, s.path)
    ensures PrefixFree(list + [s])
  {
    var all := list + [s];
    forall i, j | 0 <= i < j < |all| ensures !Related(all[i].path, all[j].path) {
      assert all[i] == list[i] && list[i] in list;
    }
  }

  lemma {:induction false} EmittedApart(list: seq<Bound>, layers: Option<seq<Layer>>, file: string)
    requires BoundsApart(list)
    ensures PrefixFree(Emitted(list, layers, file))
  {
    if list != [] {
      var n := |list| - 1;
      var front, last, v := list[..n], list[n], ValueOf(list[n], layers);
      EmittedApart(front, layers, file);
      if last.k.file == file && v.Some? {
        forall t | t in Emitted(front, layers, file) ensures !Related(t.path, PathOf(last)) {
          EmittedIff(front, layers, file, t);
          var b :| b in front && b.k.file == file && EmitsAs(b, layers, t.value) && t.path == PathOf(b);
          var i :| 0 <= i < n && list[i] == b;
          assert Stores(list[i], list[n]);
        }
        SettingLast(Emitted(front, layers, file), Setting(PathOf(last), v.value));
      }
    }
  }

  /** Keys told apart by their paths can be emitted under any prefix, from any layers. */
  lemma {:induction false} ConcreteEmittable(keys: seq<KeySpec>, prefix: string, layers: seq<Layer>,
                                             order: map<Key, Value> -> seq<Key>, over: Option<seq<Layer>>)
    requires Lists(order) && KeysApart(keys)
    ensures Emittable(Concrete(keys, prefix, layers, order), over)
  {
    var list := Concrete(keys, prefix, layers, order);
    ConcreteApart(keys, prefix, layers, order);
    forall b | b in list ensures b.k in keys { ConcreteHolds(keys, prefix, layers, order, b); }
    forall file ensures PrefixFree(Emitted(list, over, file)) {
      EmittedApart(list, over, file);
    }
  }

  /** The fragment of one file: present when it has a setting, and all of them set in order. */
  ghost predicate FragmentOf(settings: seq<Setting>, files: map<string, Value>, file: string)
  {
    && (file in files <==> settings != [])
    && (file in files ==> (forall s | s in settings :: s.path != []) && files[file] == Mapping(SetAll(map[], settings)))
  }

  ghost predicate Fragments(list: seq<Bound>, layers: Option<seq<Layer>>, files: map<string, Value>)
  {
    forall file :: FragmentOf(Emitted(list, layers, file), files, file)
  }

  lemma {:induction false} EmittedStep(list: seq<Bound>, layers: Option<seq<Layer>>, i: nat)
    requires i < |list|
    ensures forall file :: Emitted(list[..i + 1], layers, file) == Emitted(list[..i], layers, file)
              + (if list[i].k.file == file && ValueOf(list[i], layers).Some?
                 then [Setting(PathOf(list[i]), ValueOf(list[i], layers).value)] else [])
  {
    assert list[..i + 1][..i] == list[..i];
  }

  lemma {:induction false} EmittedPrefix(list: seq<Bound>, layers: Option<seq<Layer>>, file: string, i: nat)
    requires i <= |list|
    ensures Emitted(list[..i], layers, file) <= Emitted(list, layers, file)
    decreases |list| - i
  {
    if i < |list| {
      EmittedStep(list, layers, i);
      EmittedPrefix(list, layers, file, i + 1);
    } else {
      assert list[..i] == list;
    }
  }

  /** The settings before the `i`-th key leave its own path free. */
  lemma {:induction false} NextIsFree(list: seq<Bound>, layers: Option<seq<Layer>>, i: nat)
    requires Emittable(list, layers) && i < |list| && ValueOf(list[i], layers).Some?
    ensures var before := Emitted(list[..i], layers, list[i].k.file);
            PrefixFree(before) && (forall s | s in before :: s.path != [] && !Related(s.path, PathOf(list[i])))
    ensures PathOf(list[i]) != []
  {
    var file := list[i].k.file;
    var before, now := Emitted(list[..i], layers, file), Emitted(list[..i + 1], layers, file);
    var all := Emitted(list, layers, file);
    EmittedStep(list, layers, i);
    EmittedPrefix(list, layers, file, i + 1);
    EmittedPaths(list[..i], layers, file);
    assert list[i] in list;
    assert now == before + [Setting(PathOf(list[i]), ValueOf(list[i], layers).value)];
    assert now[|before|] == all[|before|] && forall j | 0 <= j < |before| :: now[j] == all[j] && now[j] == before[j];
  }

  lemma {:induction false} FragmentGrows(before: seq<Setting>, files: map<string, Value>, file: string, path: Path,
                                         v: Value)
    requires FragmentOf(before, files, file) && PrefixFree(before)
    requires path != [] && forall s | s in before :: s.path != [] && !Related(s.path, path)
    ensures var at := if file in files then files[file] else Mapping(map[]);
            SetPath(at, path, v).Some?
            && FragmentOf(before + [Setting(path, v)], files[file := SetPath(at, path, v).value], file)
  {
    PathIsFree(before, path, v);
    var now := before + [Setting(path, v)];
    assert now[..|now| - 1] == before;
    assert before == [] ==> SetAll(map[], before) == map[];
  }

  /** Another file's fragment stays as it is. */
  lemma {:induction false} FragmentStays(settings: seq<Setting>, files: map<string, Value>, file: string,
                                         other: string, value: Value)
    requires FragmentOf(settings, files, file) && other != file
    ensures FragmentOf(settings, files[other := value], file)
  {
  }

  lemma {:induction false} FragmentsSkip(list: seq<Bound>, layers: Option<seq<Layer>>, i: nat,
                                         files: map<string, Value>)
    requires i < |list| && ValueOf(list[i], layers).None? && Fragments(list[..i], layers, files)
    ensures Fragments(list[..i + 1], layers, files)
  {
    var next := list[..i + 1];
    forall file ensures FragmentOf(Emitted(next, layers, file), files, file) {
      EmittedNext(list, layers, i, file);
    }
  }

  /** The next key adds its setting to its own file's fragment, and nothing to another's. */
  lemma {:induction false} EmittedNext(list: seq<Bound>, layers: Option<seq<Layer>>, i: nat, file: string)
    requires i < |list|
    ensures var b, v := list[i], ValueOf(list[i], layers);
            Emitted(list[..i + 1], layers, file)
            == if b.k.file == file && v.Some? then Emitted(list[..i], layers, file) + [Setting(PathOf(b), v.value)]
               else Emitted(list[..i], layers, file)
  {
    EmittedStep(list, layers, i);
  }

  lemma {:induction false} FragmentsStep(list: seq<Bound>, layers: Option<seq<Layer>>, i: nat,
                                         files: map<string, Value>, b: Bound, v: Value, at: Value)
    requires Emittable(list, layers) && i < |list| && Fragments(list[..i], layers, files)
    requires b == list[i] && ValueOf(b, layers) == Some(v)
    requires at == if b.k.file in files then files[b.k.file] else Mapping(map[])
    ensures PathOf(b) != [] && SetPath(at, PathOf(b), v).Some?
    ensures Fragments(list[..i + 1], layers, files[b.k.file := SetPath(at, PathOf(b), v).value])
  {
    NextIsFree(list, layers, i);
    var own := Emitted(list[..i], layers, b.k.file);
    assert FragmentOf(own, files, b.k.file);
    FragmentGrows(own, files, b.k.file, PathOf(b), v);
    var now := files[b.k.file := SetPath(at, PathOf(b), v).value];
    var next := list[..i + 1];
    forall file ensures FragmentOf(Emitted(next, layers, file), now, file) {
      EmittedNext(list, layers, i, file);
      if file != b.k.file {
        FragmentStays(Emitted(list[..i], layers, file), files, file, b.k.file, SetPath(at, PathOf(b), v).value);
      }
    }
  }

  /** The loop of `emit`: writing a fragment never meets a non-mapping. */
  method EmitEach(list: seq<Bound>, layers: Option<seq<Layer>>) returns (files: map<string, Value>)
    requires Emittable(list, layers)
    ensures Fragments(list, layers, files)
  {
    files := map[];
    for i := 0 to |list|
      invariant Fragments(list[..i], layers, files)
    {
      var b := list[i];
      var v := ValueOf(b, layers);
      if v.None? {
        FragmentsSkip(list, layers, i, files);
      } else {
        var at := if b.k.file in files then files[b.k.file] else Mapping(map[]);
        FragmentsStep(list, layers, i, files, b, v.value, at);
        files := files[b.k.file := SetPath(at, PathOf(b), v.value).value];
      }
    }
    assert list[..|list|] == list;
  }

  /** The layers `emit` selects keys from. */
  function Given(layers: Option<seq<Layer>>): (given: seq<Layer>)
    ensures layers.Some? ==> given == layers.value
    ensures layers.None? ==> given == []
  {
    if layers.Some? then layers.value else []
  }

  /** `emit`: one file-shaped mapping per file kind, from the keys the prefix selects. */
  method Emit(keys: seq<KeySpec>, prefix: string, layers: Option<seq<Layer>>, order: map<Key, Value> -> seq<Key>)
    returns (files: map<string, Value>)
    requires Lists(order) && KeysApart(keys)
    ensures Fragments(Concrete(keys, prefix, Given(layers), order), layers, files)
  {
    var list := ConcreteKeys(keys, prefix, Given(layers), order);
    ConcreteEmittable(keys, prefix, Given(layers), order, layers);
    files := EmitEach(list, layers);
  }

  /** Every other setting of the file is at a path unrelated to the key's. */
  lemma {:induction false} OthersApart(list: seq<Bound>, layers: Option<seq<Layer>>, b: Bound, s: Setting)
    requires BoundsApart(list) && b in list && b.k.computed.None? && s in Emitted(list, layers, b.k.file)
    ensures (EmitsAs(b, layers, s.value) && s.path == PathOf(b)) || !Related(s.path, PathOf(b))
  {
    EmittedIff(list, layers, b.k.file, s);
    var other :| other in list && other.k.file == b.k.file && EmitsAs(other, layers, s.value)
                 && s.path == PathOf(other);
    if other != b { ListedApart(list, other, b); }
  }

  lemma {:induction false} FragmentHolds(list: seq<Bound>, layers: Option<seq<Layer>>, b: Bound, v: Value,
                                         settings: seq<Setting>)
    requires BoundsApart(list) && b in list && EmitsAs(b, layers, v) && settings == Emitted(list, layers, b.k.file)
    requires forall s | s in settings :: s.path != []
    ensures settings != [] && TextAt(Mapping(SetAll(map[], settings)), PathOf(b)) == Some(v)
  {
    var one := Setting(PathOf(b), v);
    EmittedIff(list, layers, b.k.file, one);
    forall s | s in settings ensures s == one || !Related(s.path, one.path) {
      OthersApart(list, layers, b, s);
    }
    SetAllHolds(map[], settings, one);
  }

  lemma {:induction false} FragmentLacks(list: seq<Bound>, layers: Option<seq<Layer>>, b: Bound, settings: seq<Setting>)
    requires BoundsApart(list) && b in list && b.k.computed.None? && b.k.path != []
    requires (forall v :: !EmitsAs(b, layers, v)) && settings == Emitted(list, layers, b.k.file)
    requires forall s | s in settings :: s.path != []
    ensures TextAt(Mapping(SetAll(map[], settings)), PathOf(b)).None?
  {
    forall s | s in settings ensures !Related(s.path, PathOf(b)) {
      OthersApart(list, layers, b, s);
    }
    SetAllElsewhere(map[], settings, PathOf(b));
  }

  /** A selected key that is stored has in its file's fragment the value it is emitted with, and when it is
      emitted with none, as a secret, nothing at all. */
  lemma {:induction false} EmitHolds(keys: seq<KeySpec>, prefix: string, layers: Option<seq<Layer>>,
                                     order: map<Key, Value> -> seq<Key>, files: map<string, Value>, b: Bound)
    requires Lists(order) && KeysApart(keys)
    requires Fragments(Concrete(keys, prefix, Given(layers), order), layers, files)
    requires b in Concrete(keys, prefix, Given(layers), order) && b.k.computed.None?
    ensures forall v | EmitsAs(b, layers, v) ::
              b.k.file in files && TextAt(files[b.k.file], PathOf(b)) == Some(v)
    ensures (forall v :: !EmitsAs(b, layers, v)) && b.k.file in files ==> TextAt(files[b.k.file], PathOf(b)).None?
  {
    var list, file := Concrete(keys, prefix, Given(layers), order), b.k.file;
    var settings := Emitted(list, layers, file);
    assert FragmentOf(settings, files, file);
    ConcreteApart(keys, prefix, Given(layers), order);
    ConcreteHolds(keys, prefix, Given(layers), order, b);
    ConcreteEmittable(keys, prefix, Given(layers), order, layers);
    EmittedPaths(list, layers, file);
    forall v | EmitsAs(b, layers, v) ensures file in files && TextAt(files[file], PathOf(b)) == Some(v) {
      FragmentHolds(list, layers, b, v, settings);
    }
    if (forall v :: !EmitsAs(b, layers, v)) && file in files {
      FragmentLacks(list, layers, b, settings);
    }
  }

  lemma {:induction false} ListedApart(list: seq<Bound>, a: Bound, b: Bound)
    requires BoundsApart(list) && a in list && b in list && a != b && Stores(a, b)
    ensures !Related(PathOf(a), PathOf(b))
  {
    var i: nat :| i < |list| && list[i] == a;
    var j: nat :| j < |list| && list[j] == b;
    if i < j {
      assert Stores(list[i], list[j]);
    } else {
      assert Stores(list[j], list[i]);
    }
  }
}
