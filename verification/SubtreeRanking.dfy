/** Region-first rankings over the way tree (`subtree.py`): every way once, and what a maximum promises. */
module SubtreeRanking {
  import opened Basics
  import opened Subtree

  /** A region's score from its ways' scores and its root way's own, if it has one. */
  type Agg = (seq<real>, Option<real>) -> real

  function Best(vals: seq<real>): (m: real)
    requires vals != []
    ensures m in vals && forall v | v in vals :: v <= m
  {
    if |vals| == 1 then vals[0] else
    var last := |vals| - 1;
    var m := Best(vals[..last]);
    assert vals == vals[..last] + [vals[last]];
    if vals[last] > m then vals[last] else m
  }

  /** `agg_max`; no region is empty. */
  ghost predicate TakesMax(agg: Agg) { forall vals, root | vals != [] :: agg(vals, root) == Best(vals) }

  /** Each id once, and none with an empty first segment. */
  predicate GoodIds(ids: seq<string>) { Distinct(ids) && FirstNamed(ids) }

  ghost predicate Scored(t: Tree, s: seq<real>) { GoodIds(t.ids) && Built(t) && |s| == |t.ids| }

  function Scores(s: seq<real>, cols: seq<nat>): (vals: seq<real>)
    requires forall j: nat | j in cols :: j < |s|
    ensures |vals| == |cols| && forall j: nat | j in cols :: s[j] in vals
    ensures forall v | v in vals :: exists j: nat | j in cols :: s[j] == v
  {
    if cols == [] then [] else
    assert cols[0] in cols && forall j | j in cols[1..] :: j in cols;
    assert forall j | j in cols :: j == cols[0] || j in cols[1..];
    [s[cols[0]]] + Scores(s, cols[1..])
  }

  function RegionScore(t: Tree, s: seq<real>, node: string, agg: Agg): real
    requires Scored(t, s)
  {
    assert forall j: nat | j in Cols(t.under, node) :: j < |s| by { ColsBelow(t, node); }
    agg(Scores(s, Cols(t.under, node)), if node in t.col then Some(s[t.col[node]]) else None)
  }

  lemma {:induction false} ScoresAt(s: seq<real>, cols: seq<nat>, i: nat)
    requires (forall j: nat | j in cols :: j < |s|) && i < |cols|
    ensures cols[i] in cols && Scores(s, cols)[i] == s[cols[i]]
  {
    if i > 0 {
      assert forall j | j in cols[1..] :: j in cols;
      ScoresAt(s, cols[1..], i - 1);
    }
  }

  /** A region is worth what the aggregator makes of its ways' scores, in column order, and of the score of the way
      that is the node itself, where there is one. */
  lemma {:induction false} RegionIs(t: Tree, s: seq<real>, node: string, agg: Agg, vals: seq<real>, own: Option<real>)
    requires Scored(t, s) && |vals| == |Under(t.ids, node)|
    requires forall i | 0 <= i < |vals| :: Under(t.ids, node)[i] < |s| && vals[i] == s[Under(t.ids, node)[i]]
    requires own.Some? <==> node in t.ids
    requires own.Some? ==> exists j :: 0 <= j < |t.ids| && t.ids[j] == node && own.value == s[j]
    ensures RegionScore(t, s, node, agg) == agg(vals, own)
  {
    var cols := Under(t.ids, node);
    assert Cols(t.under, node) == cols;
    ColsBelow(t, node);
    forall i | 0 <= i < |vals| ensures Scores(s, cols)[i] == vals[i] {
      ScoresAt(s, cols, i);
    }
    assert Scores(s, cols) == vals;
    if own.Some? {
      var j :| 0 <= j < |t.ids| && t.ids[j] == node && own.value == s[j];
      assert t.col[node] == j;
    }
  }

  /** A node's columns are exactly the ways at or below it, each once. */
  lemma {:induction false} ColsBelow(t: Tree, node: string)
    requires GoodIds(t.ids) && Built(t)
    ensures Lists(t.ids, node, Cols(t.under, node))
  {
    UnderGood(t.ids, node);
  }

  function ScoreAt(s: seq<real>, j: nat): real { if j < |s| then s[j] else 0.0 }

  /** A region scored by its maximum is worth its best way. */
  lemma {:induction false} RegionBest(t: Tree, s: seq<real>, node: string, agg: Agg, score: real, j: nat)
    returns (best: nat)
    requires Scored(t, s) && TakesMax(agg) && j < |t.ids| && Below(node, t.ids[j])
    requires score == RegionScore(t, s, node, agg)
    ensures best < |t.ids| && Below(node, t.ids[best]) && ScoreAt(s, best) == score
    ensures forall i: nat | i < |t.ids| && Below(node, t.ids[i]) :: ScoreAt(s, i) <= score
  {
    var cols := Cols(t.under, node);
    ColsBelow(t, node);
    var vals := Scores(s, cols);
    assert s[j] in vals;
    best :| best in cols && s[best] == Best(vals);
  }

  // ----- the orders the rankings sort by -----

  function ByScore(s: seq<real>): (nat, nat) -> bool { (a: nat, b: nat) => ScoreAt(s, a) >= ScoreAt(s, b) }

  /** The node's own way (`own`) or a child region, with its score. */
  datatype Entry = Entry(score: real, own: bool, node: string)

  predicate Ahead(a: Entry, b: Entry) { a.score > b.score || (a.score == b.score && (a.own || !b.own)) }

  /** Exactly the ways at or below `node`, each once. */
  ghost predicate Lists(ids: seq<string>, node: string, out: seq<nat>)
  {
    Distinct(out) && forall j: nat :: j in out <==> j < |ids| && Below(node, ids[j])
  }

  /** Nothing listed scores higher than what is listed first. */
  ghost predicate Leads(s: seq<real>, out: seq<nat>)
  {
    out != [] ==> forall j: nat | j in out :: ScoreAt(s, j) <= ScoreAt(s, out[0])
  }

  lemma {:induction false} FlatLists(t: Tree, s: seq<real>, node: string, out: seq<nat>)
    requires Scored(t, s) && out == SortBy(ByScore(s), Cols(t.under, node))
    ensures Lists(t.ids, node, out) && Leads(s, out)
  {
    var cols := Cols(t.under, node);
    ColsBelow(t, node);
    SortKeeps(ByScore(s), cols);
    SortLeads(s, cols);
  }

  lemma {:induction false} SortLeads(s: seq<real>, cols: seq<nat>)
    ensures Leads(s, SortBy(ByScore(s), cols))
  {
    var out := SortBy(ByScore(s), cols);
    SortOrders(ByScore(s), cols);
    forall j | out != [] && j in out ensures ScoreAt(s, j) <= ScoreAt(s, out[0]) {
      var i :| 0 <= i < |out| && out[i] == j;
      assert i == 0 || ByScore(s)(out[0], out[i]);
    }
  }

  /** Higher scores first, and of equal ones the earlier column. */
  predicate Flat(s: seq<real>, out: seq<nat>)
  {
    forall i, j | 0 <= i < j < |out| ::
      ScoreAt(s, out[i]) > ScoreAt(s, out[j]) || (ScoreAt(s, out[i]) == ScoreAt(s, out[j]) && out[i] < out[j])
  }

  lemma {:induction false} FlatOrder(t: Tree, s: seq<real>, node: string, cols: seq<nat>, out: seq<nat>)
    requires Scored(t, s) && cols == Cols(t.under, node) && out == SortBy(ByScore(s), cols)
    ensures Flat(s, out)
  {
    SortOrders(ByScore(s), cols);
    UnderAscends(t.ids, node);
    SortKeeps(ByScore(s), cols);
    forall i, j | 0 <= i < j < |out|
      ensures ScoreAt(s, out[i]) > ScoreAt(s, out[j]) || (ScoreAt(s, out[i]) == ScoreAt(s, out[j]) && out[i] < out[j])
    {
      assert ByScore(s)(out[i], out[j]);
      if ScoreAt(s, out[i]) == ScoreAt(s, out[j]) {
        assert ByScore(s)(out[j], out[i]);
        var m, n := SortStable(ByScore(s), cols, i, j);
      }
    }
  }

  // ----- the entries of a node -----

  /** The entry is the node's own way, or one of its children. */
  predicate Placed(t: Tree, node: string, e: Entry)
  {
    if e.own then e.node == node && node != "" && node in t.col else e.node in Children(t.ids, node)
  }

  ghost predicate Rated(t: Tree, s: seq<real>, agg: Agg, e: Entry)
    requires Scored(t, s)
  {
    if e.own then e.node in t.col && e.score == s[t.col[e.node]] else e.score == RegionScore(t, s, e.node, agg)
  }

  ghost predicate IsEntry(t: Tree, s: seq<real>, agg: Agg, node: string, e: Entry)
    requires Scored(t, s)
  {
    Placed(t, node, e) && Rated(t, s, agg, e)
  }

  ghost predicate Entries(t: Tree, s: seq<real>, agg: Agg, node: string, items: seq<Entry>)
    requires Scored(t, s)
  {
    && Distinct(items) && (forall e | e in items :: IsEntry(t, s, agg, node, e))
    && (node != "" && node in t.col ==> Entry(s[t.col[node]], true, node) in items)
    && (forall ch | ch in Children(t.ids, node) :: Entry(RegionScore(t, s, ch, agg), false, ch) in items)
  }

  lemma {:induction false} EntryAt(t: Tree, s: seq<real>, agg: Agg, node: string, items: seq<Entry>, m: nat)
    requires Scored(t, s) && Entries(t, s, agg, node, items) && m < |items|
    ensures Placed(t, node, items[m]) && Rated(t, s, agg, items[m])
    ensures Near(node, items[m]) && Seg(node) <= Seg(items[m].node)
  {
    assert items[m] in items;
    assert IsEntry(t, s, agg, node, items[m]);
    PlacedNear(t, node, items[m]);
  }

  /** The entries of a node are told apart by their place. */
  lemma {:induction false} EntriesApart(t: Tree, s: seq<real>, agg: Agg, node: string, items: seq<Entry>, m: nat,
                                        n: nat, j: nat)
    requires Scored(t, s) && Entries(t, s, agg, node, items) && m < n < |items|
    ensures !(InRegion(t.ids, items[m], j) && InRegion(t.ids, items[n], j))
  {
    EntryAt(t, s, agg, node, items, m);
    EntryAt(t, s, agg, node, items, n);
    if InRegion(t.ids, items[m], j) && InRegion(t.ids, items[n], j) {
      OneEntry(t.ids, node, items[m], items[n], j);
    }
  }

  /** The ways an entry stands for. */
  predicate InRegion(ids: seq<string>, e: Entry, j: nat)
  {
    j < |ids| && if e.own then ids[j] == e.node else Below(e.node, ids[j])
  }

  /** A way strictly below a node is at or below the child one segment further down. */
  lemma {:induction false} Onward(ids: seq<string>, node: string, j: nat) returns (ch: string)
    requires FirstNamed(ids) && j < |ids| && Below(node, ids[j]) && ids[j] != node
    ensures ch in Children(ids, node) && Below(ch, ids[j])
  {
    var parts, n := Parts(ids[j]), |Seg(node)|;
    SegJoin(node);
    SegJoin(ids[j]);
    assert Seg(node) != parts;
    ch := Name(parts, n + 1);
    NameSeg(ids[j], n + 1);
    ChildrenGood(ids, node, ch);
  }

  /** Each way below a node is in an entry of it. */
  lemma {:induction false} SomeEntry(t: Tree, s: seq<real>, agg: Agg, node: string, items: seq<Entry>, j: nat)
    returns (m: nat)
    requires Scored(t, s) && Entries(t, s, agg, node, items) && j < |t.ids| && Below(node, t.ids[j])
    ensures m < |items| && InRegion(t.ids, items[m], j)
  {
    if t.ids[j] == node {
      assert StartsNamed(node) && node in t.ids;
      m :| 0 <= m < |items| && items[m] == Entry(s[t.col[node]], true, node);
    } else {
      var ch := Onward(t.ids, node, j);
      m :| 0 <= m < |items| && items[m] == Entry(RegionScore(t, s, ch, agg), false, ch);
    }
  }

  predicate Near(node: string, e: Entry)
  {
    if e.own then e.node == node != "" else |Seg(e.node)| == |Seg(node)| + 1
  }

  /** No way is in two entries of a node. */
  lemma {:induction false} OneEntry(ids: seq<string>, node: string, a: Entry, b: Entry, j: nat)
    requires Near(node, a) && Near(node, b) && InRegion(ids, a, j) && InRegion(ids, b, j)
    ensures a.own == b.own && a.node == b.node
  {
    SegJoin(a.node);
    SegJoin(b.node);
    if !a.own && !b.own {
      assert Seg(a.node) == Parts(ids[j])[..|Seg(node)| + 1] == Seg(b.node);
    }
  }

  lemma {:induction false} PlacedNear(t: Tree, node: string, e: Entry)
    requires FirstNamed(t.ids) && Placed(t, node, e)
    ensures Near(node, e) && Seg(node) <= Seg(e.node)
  {
    if !e.own { ChildShape(t.ids, node, e.node); }
  }

  lemma {:induction false} OwnOnly(ids: seq<string>, node: string, best: nat)
    requires Distinct(ids) && best < |ids| && ids[best] == node
    ensures forall i: nat | i < |ids| && ids[i] == node :: i == best
  {
  }

  /** An entry scored by its maximum scores what its best way does. */
  lemma {:induction false} EntryBest(t: Tree, s: seq<real>, agg: Agg, e: Entry, j: nat) returns (best: nat)
    requires Scored(t, s) && Rated(t, s, agg, e) && TakesMax(agg) && InRegion(t.ids, e, j)
    ensures InRegion(t.ids, e, best) && ScoreAt(s, best) == e.score
    ensures forall i | InRegion(t.ids, e, i) :: ScoreAt(s, i) <= e.score
  {
    if e.own {
      best := t.col[e.node];
      OwnOnly(t.ids, e.node, best);
    } else {
      best := RegionBest(t, s, e.node, agg, e.score, j);
    }
  }

  /** The set's members in some order, each once. */
  method Listed<T(==)>(xs: set<T>) returns (out: seq<T>)
    ensures Distinct(out) && forall x :: x in out <==> x in xs
  {
    out := [];
    var left := xs;
    while left != {}
      invariant left <= xs && Distinct(out)
      invariant forall x :: x in out <==> x in xs - left
      decreases |left|
    {
      var x :| x in left;
      assert x !in out;
      left := left - {x};
      out := out + [x];
    }
  }

  function OwnEntries(t: Tree, s: seq<real>, node: string): (own: seq<Entry>)
    requires Scored(t, s)
    ensures |own| <= 1 && forall m | 0 <= m < |own| :: own[m].own && own[m].node == node
  {
    if node != "" && node in t.col then [Entry(s[t.col[node]], true, node)] else []
  }

  function ChildEntry(t: Tree, s: seq<real>, agg: Agg, ch: string): (e: Entry)
    requires Scored(t, s)
    ensures !e.own && e.node == ch
  {
    Entry(RegionScore(t, s, ch, agg), false, ch)
  }

  /** The node's own entry, then those of the children listed. */
  ghost predicate Gathered(own: seq<Entry>, kids: seq<string>, entry: string -> Entry, i: nat, items: seq<Entry>)
    requires i <= |kids|
  {
    && |items| == |own| + i && own <= items
    && forall m | 0 <= m < i :: items[|own| + m] == entry(kids[m])
  }

  lemma {:induction false} GatherNext(own: seq<Entry>, kids: seq<string>, entry: string -> Entry, i: nat,
                                      items: seq<Entry>, e: Entry)
    requires i < |kids| && Gathered(own, kids, entry, i, items) && e == entry(kids[i])
    ensures Gathered(own, kids, entry, i + 1, items + [e])
  {
  }

  lemma {:induction false} GatheredDistinct(own: seq<Entry>, kids: seq<string>, entry: string -> Entry,
                                            items: seq<Entry>)
    requires Gathered(own, kids, entry, |kids|, items) && Distinct(own) && Distinct(kids)
    requires forall e | e in own :: e.own
    requires forall ch :: !entry(ch).own && entry(ch).node == ch
    ensures Distinct(items)
  {
    forall i, j | 0 <= i < j < |items| ensures items[i] != items[j] {
      if j < |own| {
        assert items[i] == own[i] && items[j] == own[j];
      } else {
        assert items[j] == entry(kids[j - |own|]);
        if i < |own| {
          assert items[i] == own[i] && own[i] in own;
        } else {
          assert items[i] == entry(kids[i - |own|]) && kids[i - |own|] != kids[j - |own|];
        }
      }
    }
  }

  lemma {:induction false} GatheredHolds(own: seq<Entry>, kids: seq<string>, entry: string -> Entry, items: seq<Entry>)
    requires Gathered(own, kids, entry, |kids|, items)
    ensures forall e | e in items :: e in own || exists ch | ch in kids :: e == entry(ch)
    ensures (forall e | e in own :: e in items) && forall ch | ch in kids :: entry(ch) in items
  {
    forall e | e in items ensures e in own || exists ch | ch in kids :: e == entry(ch) {
      var n :| 0 <= n < |items| && items[n] == e;
      if n < |own| {
        assert own[n] == e;
      } else {
        assert kids[n - |own|] in kids && e == entry(kids[n - |own|]);
      }
    }
    forall e | e in own ensures e in items {
      var n :| 0 <= n < |own| && own[n] == e;
      assert items[n] == e;
    }
    forall ch | ch in kids ensures entry(ch) in items {
      var m :| 0 <= m < |kids| && kids[m] == ch;
      assert items[|own| + m] == entry(ch);
    }
  }

  lemma {:induction false} GatheredAll(t: Tree, s: seq<real>, agg: Agg, node: string, kids: seq<string>,
                                       entry: string -> Entry, own: seq<Entry>, items: seq<Entry>)
    requires Scored(t, s) && Gathered(own, kids, entry, |kids|, items) && own == OwnEntries(t, s, node)
    requires forall ch :: entry(ch) == ChildEntry(t, s, agg, ch)
    requires Distinct(kids) && forall ch :: ch in kids <==> ch in Children(t.ids, node)
    ensures Entries(t, s, agg, node, items)
  {
    GatheredDistinct(own, kids, entry, items);
    GatheredHolds(own, kids, entry, items);
    forall e | e in items ensures IsEntry(t, s, agg, node, e) {
      if e !in own {
        var ch :| ch in kids && e == entry(ch);
      }
    }
    forall ch | ch in Children(t.ids, node) ensures Entry(RegionScore(t, s, ch, agg), false, ch) in items {
      assert entry(ch) in items;
    }
    if node != "" && node in t.col {
      assert own[0] in own;
    }
  }

  method NodeEntries(t: Tree, s: seq<real>, agg: Agg, node: string) returns (items: seq<Entry>)
    requires Scored(t, s)
    ensures Entries(t, s, agg, node, items)
  {
    var own := OwnEntries(t, s, node);
    var kids := Listed(Kids(t.children, node));
    ghost var entry := (ch: string) => if Scored(t, s) then ChildEntry(t, s, agg, ch) else Entry(0.0, false, ch);
    items := own;
    for i := 0 to |kids|
      invariant Gathered(own, kids, entry, i, items)
    {
      var e := ChildEntry(t, s, agg, kids[i]);
      GatherNext(own, kids, entry, i, items, e);
      items := items + [e];
    }
    assert Kids(t.children, node) == Children(t.ids, node);
    GatheredAll(t, s, agg, node, kids, entry, own, items);
  }

  // ----- the descent -----

  /** `out` is every way of the first `i` entries, each once. */
  ghost predicate Taken(ids: seq<string>, items: seq<Entry>, i: nat, out: seq<nat>)
    requires i <= |items|
  {
    && Distinct(out)
    && (forall j: nat | j in out :: exists m: nat | m < i :: InRegion(ids, items[m], j))
    && (forall m: nat, j: nat | m < i && InRegion(ids, items[m], j) :: j in out)
  }

  /** `part` is the entry's ways, each once. */
  ghost predicate Covers(ids: seq<string>, e: Entry, part: seq<nat>)
  {
    Distinct(part) && forall j: nat :: j in part <==> InRegion(ids, e, j)
  }

  lemma {:induction false} TakeOne(t: Tree, s: seq<real>, agg: Agg, node: string, items: seq<Entry>, i: nat,
                                   out: seq<nat>, part: seq<nat>)
    requires Scored(t, s) && Entries(t, s, agg, node, items) && i < |items|
    requires Taken(t.ids, items, i, out) && Covers(t.ids, items[i], part)
    ensures Taken(t.ids, items, i + 1, out + part)
  {
    forall j: nat | j in part ensures j !in out {
      if j in out {
        var m: nat :| m < i && InRegion(t.ids, items[m], j);
        EntriesApart(t, s, agg, node, items, m, i, j);
        assert false;
      }
    }
    DistinctConcat(out, part);
    forall j: nat | j in out + part ensures exists m: nat | m < i + 1 :: InRegion(t.ids, items[m], j) {
      if j in out {
        var m: nat :| m < i && InRegion(t.ids, items[m], j);
        assert m < i + 1;
      } else {
        assert InRegion(t.ids, items[i], j);
      }
    }
  }

  lemma {:induction false} RegionBelow(ids: seq<string>, node: string, e: Entry, j: nat)
    requires Near(node, e) && Seg(node) <= Seg(e.node) && InRegion(ids, e, j)
    ensures j < |ids| && Below(node, ids[j])
  {
    SegJoin(e.node);
  }

  lemma {:induction false} TakenAll(t: Tree, s: seq<real>, agg: Agg, node: string, items: seq<Entry>, out: seq<nat>)
    requires Scored(t, s) && Entries(t, s, agg, node, items) && Taken(t.ids, items, |items|, out)
    ensures Lists(t.ids, node, out)
  {
    forall j: nat | j in out ensures j < |t.ids| && Below(node, t.ids[j]) {
      var m: nat :| m < |items| && InRegion(t.ids, items[m], j);
      EntryAt(t, s, agg, node, items, m);
      RegionBelow(t.ids, node, items[m], j);
    }
    forall j: nat | j < |t.ids| && Below(node, t.ids[j]) ensures j in out {
      var m := SomeEntry(t, s, agg, node, items, j);
    }
  }

  /** The part of an entry, its ways each once, starts with a way worth the entry's score. */
  lemma {:induction false} PartLeads(t: Tree, s: seq<real>, agg: Agg, e: Entry, part: seq<nat>)
    requires Scored(t, s) && Rated(t, s, agg, e) && TakesMax(agg)
    requires Covers(t.ids, e, part) && Leads(s, part) && part != []
    ensures ScoreAt(s, part[0]) == e.score
  {
    assert part[0] in part;
    var best := EntryBest(t, s, agg, e, part[0]);
    assert best in part;
  }

  /** Under a maximum no way below the node beats the first entry. */
  lemma {:induction false} FirstBest(t: Tree, s: seq<real>, agg: Agg, node: string, items: seq<Entry>, out: seq<nat>)
    requires Scored(t, s) && Entries(t, s, agg, node, items) && TakesMax(agg) && InOrder(Ahead, items)
    requires Lists(t.ids, node, out) && out != [] && items != [] && ScoreAt(s, out[0]) == items[0].score
    ensures Leads(s, out)
  {
    forall j: nat | j in out ensures ScoreAt(s, j) <= ScoreAt(s, out[0]) {
      AtMostFirst(t, s, agg, node, items, j);
    }
  }

  lemma {:induction false} FirstHighest(items: seq<Entry>, m: nat)
    requires m < |items| && InOrder(Ahead, items)
    ensures items[m].score <= items[0].score
  {
    assert m == 0 || Ahead(items[0], items[m]);
  }

  lemma {:induction false} AtMostFirst(t: Tree, s: seq<real>, agg: Agg, node: string, items: seq<Entry>, j: nat)
    requires Scored(t, s) && Entries(t, s, agg, node, items) && TakesMax(agg) && InOrder(Ahead, items)
    requires j < |t.ids| && Below(node, t.ids[j])
    ensures items != [] && ScoreAt(s, j) <= items[0].score
  {
    var m := SomeEntry(t, s, agg, node, items, j);
    FirstHighest(items, m);
    EntryAt(t, s, agg, node, items, m);
    var best := EntryBest(t, s, agg, items[m], j);
  }

  lemma {:induction false} OwnPart(t: Tree, s: seq<real>, agg: Agg, node: string, e: Entry, part: seq<nat>)
    requires Scored(t, s) && IsEntry(t, s, agg, node, e) && e.own && part == [t.col[e.node]]
    ensures Covers(t.ids, e, part) && Leads(s, part)
  {
    OwnOnly(t.ids, node, t.col[node]);
  }

  lemma {:induction false} ChildPart(ids: seq<string>, e: Entry, part: seq<nat>)
    requires !e.own && Lists(ids, e.node, part)
    ensures Covers(ids, e, part)
  {
  }

  lemma {:induction false} EntryCovered(t: Tree, node: string, e: Entry) returns (j: nat)
    requires FirstNamed(t.ids) && Columns(t.ids, t.col) && Placed(t, node, e)
    ensures InRegion(t.ids, e, j)
  {
    if e.own {
      j := t.col[node];
    } else {
      ChildShape(t.ids, node, e.node);
      j :| j < |t.ids| && Below(e.node, t.ids[j]);
    }
  }

  lemma {:induction false} EntriesSorted(t: Tree, s: seq<real>, agg: Agg, node: string, items: seq<Entry>)
    requires Scored(t, s) && Entries(t, s, agg, node, items)
    ensures Entries(t, s, agg, node, SortBy(Ahead, items)) && InOrder(Ahead, SortBy(Ahead, items))
  {
    SortKeeps(Ahead, items);
    SortOrders(Ahead, items);
  }

  /** Under a maximum what comes first is worth the first entry. */
  ghost predicate Started(s: seq<real>, agg: Agg, items: seq<Entry>, i: nat, out: seq<nat>)
    requires i <= |items|
  {
    if i == 0 then out == [] else out != [] && (TakesMax(agg) ==> ScoreAt(s, out[0]) == items[0].score)
  }

  lemma {:induction false} StartOne(t: Tree, s: seq<real>, agg: Agg, node: string, items: seq<Entry>, i: nat,
                                    out: seq<nat>, part: seq<nat>)
    requires Scored(t, s) && i < |items| && IsEntry(t, s, agg, node, items[i]) && Started(s, agg, items, i, out)
    requires Covers(t.ids, items[i], part) && (TakesMax(agg) ==> Leads(s, part))
    ensures Started(s, agg, items, i + 1, out + part)
  {
    var j := EntryCovered(t, node, items[i]);
    assert j in part;
    if i == 0 {
      assert out + part == part;
      if TakesMax(agg) { PartLeads(t, s, agg, items[i], part); }
    }
  }

  // ----- the order of a descent -----

  function Together(parts: seq<seq<nat>>): seq<nat>
  {
    if parts == [] then [] else Together(parts[..|parts| - 1]) + parts[|parts| - 1]
  }

  /** The ways below the node in the order of a descent: flat where it is cut; otherwise entry by entry, each
      entry's ways together, higher scores first and of equal ones the node's own way. */
  ghost predicate Descends(t: Tree, s: seq<real>, agg: Agg, node: string, maxDepth: Option<nat>, depth: nat,
                           out: seq<nat>)
    requires Scored(t, s)
    decreases Height(t.ids) + 1 - |Seg(node)|
  {
    if maxDepth.Some? && depth >= maxDepth.value then Flat(s, out)
    else
      exists items: seq<Entry>, parts: seq<seq<nat>> ::
        && Entries(t, s, agg, node, items) && InOrder(Ahead, items)
        && |parts| == |items| && out == Together(parts)
        && forall i | 0 <= i < |items| ::
             if items[i].own then parts[i] == Own(t, node)
             else
               && |Seg(node)| < |Seg(items[i].node)| <= Height(t.ids)
               && Descends(t, s, agg, items[i].node, maxDepth, depth + 1, parts[i])
  }

  /** The node's own column. */
  function Own(t: Tree, node: string): seq<nat> { if node in t.col then [t.col[node]] else [] }

  /** An entry's part: the node's own column, or the child's ways in the order of its descent. */
  ghost predicate IsPart(t: Tree, s: seq<real>, agg: Agg, node: string, maxDepth: Option<nat>, depth: nat,
                         e: Entry, part: seq<nat>)
    requires Scored(t, s)
  {
    if e.own then part == Own(t, node)
    else
      && |Seg(node)| < |Seg(e.node)| <= Height(t.ids)
      && Descends(t, s, agg, e.node, maxDepth, depth + 1, part)
  }

  /** The parts of the first `i` entries. */
  ghost predicate Parted(t: Tree, s: seq<real>, agg: Agg, node: string, maxDepth: Option<nat>, depth: nat,
                         items: seq<Entry>, i: nat, parts: seq<seq<nat>>)
    requires Scored(t, s)
  {
    && i <= |items| && |parts| == i
    && forall m | 0 <= m < i :: IsPart(t, s, agg, node, maxDepth, depth, items[m], parts[m])
  }

  lemma {:induction false} PartedMore(t: Tree, s: seq<real>, agg: Agg, node: string, maxDepth: Option<nat>, depth: nat,
                                      items: seq<Entry>, i: nat, parts: seq<seq<nat>>, part: seq<nat>)
    requires Scored(t, s) && i < |items| && Parted(t, s, agg, node, maxDepth, depth, items, i, parts)
    requires IsPart(t, s, agg, node, maxDepth, depth, items[i], part)
    ensures Parted(t, s, agg, node, maxDepth, depth, items, i + 1, parts + [part])
  {
    var more := parts + [part];
    forall m | 0 <= m < i + 1 ensures IsPart(t, s, agg, node, maxDepth, depth, items[m], more[m]) {
      assert more[m] == if m < i then parts[m] else part;
    }
  }

  lemma {:induction false} TogetherMore(parts: seq<seq<nat>>, part: seq<nat>)
    ensures Together(parts + [part]) == Together(parts) + part
  {
    assert (parts + [part])[..|parts|] == parts;
  }

  lemma {:induction false} PartedAll(t: Tree, s: seq<real>, agg: Agg, node: string, maxDepth: Option<nat>, depth: nat,
                                     items: seq<Entry>, parts: seq<seq<nat>>, out: seq<nat>)
    requires Scored(t, s) && Entries(t, s, agg, node, items) && InOrder(Ahead, items)
    requires Parted(t, s, agg, node, maxDepth, depth, items, |items|, parts) && out == Together(parts)
    requires !(maxDepth.Some? && depth >= maxDepth.value)
    ensures Descends(t, s, agg, node, maxDepth, depth, out)
  {
  }

  /** `descent_ranking`: whatever the aggregator and the depth it is cut at, every way below the node
      once, in the order of the descent; and under a maximum the best of them first. */
  method DescentRanking(t: Tree, s: seq<real>, agg: Agg, node: string, maxDepth: Option<nat>, depth: nat)
    returns (out: seq<nat>)
    requires Scored(t, s)
    ensures Lists(t.ids, node, out)
    ensures Descends(t, s, agg, node, maxDepth, depth, out)
    ensures TakesMax(agg) ==> Leads(s, out)
    decreases Height(t.ids) + 1 - |Seg(node)|
  {
    if maxDepth.Some? && depth >= maxDepth.value {
      out := SortBy(ByScore(s), Cols(t.under, node));
      FlatLists(t, s, node, out);
      FlatOrder(t, s, node, Cols(t.under, node), out);
      return;
    }
    var found := NodeEntries(t, s, agg, node);
    var items := SortBy(Ahead, found);
    EntriesSorted(t, s, agg, node, found);
    out := [];
    ghost var parts: seq<seq<nat>> := [];
    for i := 0 to |items|
      invariant Taken(t.ids, items, i, out)
      invariant Started(s, agg, items, i, out)
      invariant Parted(t, s, agg, node, maxDepth, depth, items, i, parts) && out == Together(parts)
    {
      var e := items[i];
      assert e in items;
      assert IsEntry(t, s, agg, node, e);
      var part;
      if e.own {
        part := [t.col[e.node]];
        OwnPart(t, s, agg, node, e, part);
      } else {
        ChildShape(t.ids, node, e.node);
        part := DescentRanking(t, s, agg, e.node, maxDepth, depth + 1);
        ChildPart(t.ids, e, part);
      }
      TakeOne(t, s, agg, node, items, i, out, part);
      StartOne(t, s, agg, node, items, i, out, part);
      PartedMore(t, s, agg, node, maxDepth, depth, items, i, parts, part);
      TogetherMore(parts, part);
      out, parts := out + part, parts + [part];
    }
    TakenAll(t, s, agg, node, items, out);
    PartedAll(t, s, agg, node, maxDepth, depth, items, parts, out);
    if TakesMax(agg) && out != [] {
      FirstBest(t, s, agg, node, items, out);
    }
  }

  // ----- the top-k domains -----

  /** The members of `xs` that are not in `seen`. */
  function Without(xs: seq<nat>, seen: seq<nat>): (out: seq<nat>)
    ensures forall j: nat :: j in out <==> j in xs && j !in seen
    ensures Distinct(xs) ==> Distinct(out)
  {
    if xs == [] then [] else
    var rest := Without(xs[1..], seen);
    assert forall j: nat :: j in xs <==> j == xs[0] || j in xs[1..];
    assert Distinct(xs) ==> xs[0] !in xs[1..];
    if xs[0] in seen then rest else [xs[0]] + rest
  }

  /** What is left keeps its order. */
  lemma {:induction false} WithoutOrder(xs: seq<nat>, seen: seq<nat>, i: nat, j: nat) returns (m: nat, n: nat)
    requires i < j < |Without(xs, seen)|
    ensures m < n < |xs| && xs[m] == Without(xs, seen)[i] && xs[n] == Without(xs, seen)[j]
  {
    var tail, rest := xs[1..], Without(xs[1..], seen);
    if xs[0] in seen {
      m, n := WithoutOrder(tail, seen, i, j);
      m, n := m + 1, n + 1;
    } else if i > 0 {
      m, n := WithoutOrder(tail, seen, i - 1, j - 1);
      m, n := m + 1, n + 1;
    } else {
      var k := WithoutFrom(tail, seen, j - 1);
      m, n := 0, k + 1;
    }
  }

  lemma {:induction false} WithoutFrom(xs: seq<nat>, seen: seq<nat>, i: nat) returns (k: nat)
    requires i < |Without(xs, seen)|
    ensures k < |xs| && xs[k] == Without(xs, seen)[i]
  {
    var x := Without(xs, seen)[i];
    assert x in Without(xs, seen);
    k :| k < |xs| && xs[k] == x;
  }

  lemma {:induction false} DomainCols(t: Tree, e: Entry)
    requires GoodIds(t.ids) && Built(t) && !e.own
    ensures Covers(t.ids, e, Cols(t.under, e.node))
  {
    ColsBelow(t, e.node);
  }

  /** The chosen domains' ways, best first, then every other way. */
  lemma {:induction false} TopkLists(t: Tree, s: seq<real>, items: seq<Entry>, k: nat,
                                     union: seq<nat>, rest: seq<nat>, first: seq<nat>)
    requires Scored(t, s) && k <= |items| && Taken(t.ids, items, k, union) && Lists(t.ids, "", rest)
    requires first == SortBy(ByScore(s), union)
    ensures Lists(t.ids, "", first + Without(rest, first))
  {
    SortKeeps(ByScore(s), union);
    DistinctConcat(first, Without(rest, first));
    forall j: nat | j in first ensures j < |t.ids| {
      var m: nat :| m < k && InRegion(t.ids, items[m], j);
    }
  }

  lemma {:induction false} TopkLeads(t: Tree, s: seq<real>, agg: Agg, items: seq<Entry>, k: nat,
                                     union: seq<nat>, first: seq<nat>, out: seq<nat>)
    requires Scored(t, s) && Entries(t, s, agg, "", items) && InOrder(Ahead, items) && TakesMax(agg)
    requires 0 < k <= |items| && Taken(t.ids, items, k, union) && first == SortBy(ByScore(s), union)
    requires Lists(t.ids, "", out) && first <= out
    ensures Leads(s, out)
  {
    SortKeeps(ByScore(s), union);
    SortLeads(s, union);
    EntryAt(t, s, agg, "", items, 0);
    var j0 := EntryCovered(t, "", items[0]);
    var best := EntryBest(t, s, agg, items[0], j0);
    assert best in union && best in first && first[0] == out[0];
    forall j: nat | j in out ensures ScoreAt(s, j) <= ScoreAt(s, out[0]) {
      AtMostFirst(t, s, agg, "", items, j);
    }
  }

  /** A domain is left out only when `k` are chosen, none of which it outscores. */
  ghost predicate Chosen(t: Tree, s: seq<real>, agg: Agg, doms: seq<string>, k: nat)
    requires Scored(t, s)
  {
    forall e | e in Children(t.ids, "") && e !in doms ::
      |doms| == k && forall d | d in doms :: RegionScore(t, s, d, agg) >= RegionScore(t, s, e, agg)
  }

  function Names(items: seq<Entry>, k: nat): (doms: seq<string>)
    requires k <= |items|
    ensures |doms| == k && forall m | 0 <= m < k :: doms[m] == items[m].node
  {
    seq(k, m requires 0 <= m < k => items[m].node)
  }

  /** The columns at or below each of the nodes, one node after another. */
  function AllUnder(ids: seq<string>, nodes: seq<string>): seq<nat>
  {
    if nodes == [] then [] else AllUnder(ids, nodes[..|nodes| - 1]) + Under(ids, nodes[|nodes| - 1])
  }

  /** The domains come best first, each once. */
  ghost predicate BestFirst(t: Tree, s: seq<real>, agg: Agg, doms: seq<string>)
    requires Scored(t, s)
  {
    && Distinct(doms) && (forall d | d in doms :: d in Children(t.ids, ""))
    && forall m, n | 0 <= m < n < |doms| :: RegionScore(t, s, doms[m], agg) >= RegionScore(t, s, doms[n], agg)
  }

  /** The columns of the first `k` domains, one domain after another. */
  method DomainUnion(t: Tree, s: seq<real>, agg: Agg, items: seq<Entry>, k: nat, doms: seq<string>)
    returns (union: seq<nat>)
    requires Scored(t, s) && Entries(t, s, agg, "", items) && k <= |items|
    requires |doms| == k && forall m | 0 <= m < k :: doms[m] == items[m].node
    ensures Taken(t.ids, items, k, union) && union == AllUnder(t.ids, doms)
  {
    union := [];
    for i := 0 to k
      invariant Taken(t.ids, items, i, union) && union == AllUnder(t.ids, doms[..i])
    {
      assert items[i] in items;
      assert !items[i].own;
      DomainCols(t, items[i]);
      assert doms[..i + 1][..i] == doms[..i] && Cols(t.under, doms[i]) == Under(t.ids, doms[i]);
      TakeOne(t, s, agg, "", items, i, union, Cols(t.under, items[i].node));
      union := union + Cols(t.under, doms[i]);
    }
    assert doms[..k] == doms;
  }

  lemma {:induction false} DomainsOrdered(t: Tree, s: seq<real>, agg: Agg, items: seq<Entry>, doms: seq<string>)
    requires Scored(t, s) && Entries(t, s, agg, "", items) && InOrder(Ahead, items)
    requires |doms| <= |items| && forall m | 0 <= m < |doms| :: doms[m] == items[m].node
    ensures BestFirst(t, s, agg, doms)
  {
    forall m | 0 <= m < |doms|
      ensures !items[m].own && doms[m] in Children(t.ids, "") && items[m].score == RegionScore(t, s, doms[m], agg)
    {
      assert items[m] in items;
      assert IsEntry(t, s, agg, "", items[m]);
    }
    forall m, n | 0 <= m < n < |doms|
      ensures doms[m] != doms[n] && RegionScore(t, s, doms[m], agg) >= RegionScore(t, s, doms[n], agg)
    {
      assert Ahead(items[m], items[n]) && items[m] != items[n];
    }
  }

  /** `topk_ranking`: the ways of the best domains by score, then the other ways as the descent cut at the domains
      lists them; every way once, and under a maximum the best first; and no domain left out outscores one
      that was chosen. */
  method TopkRanking(t: Tree, s: seq<real>, agg: Agg, k: nat)
    returns (out: seq<nat>, doms: seq<string>, ghost rest: seq<nat>)
    requires Scored(t, s)
    ensures Lists(t.ids, "", out)
    ensures TakesMax(agg) ==> Leads(s, out)
    ensures |doms| <= k && BestFirst(t, s, agg, doms) && Chosen(t, s, agg, doms, k)
    ensures Lists(t.ids, "", rest) && Descends(t, s, agg, "", Some(1), 0, rest)
    ensures var first := SortBy(ByScore(s), AllUnder(t.ids, doms)); out == first + Without(rest, first)
  {
    var found := NodeEntries(t, s, agg, "");
    var items := SortBy(Ahead, found);
    EntriesSorted(t, s, agg, "", found);
    var taken := if k <= |items| then k else |items|;
    doms := Names(items, taken);
    var union := DomainUnion(t, s, agg, items, taken, doms);
    DomainsOrdered(t, s, agg, items, doms);
    ChosenBest(t, s, agg, items, doms, k);
    var others := DescentRanking(t, s, agg, "", Some(1), 0);
    rest := others;
    var first := SortBy(ByScore(s), union);
    out := first + Without(others, first);
    TopkLists(t, s, items, taken, union, rest, first);
    if TakesMax(agg) {
      if taken > 0 {
        TopkLeads(t, s, agg, items, taken, union, first, out);
      } else {
        assert union == [];
        KeepsAll(rest);
        assert out == rest;
      }
    }
  }

  lemma {:induction false} KeepsAll(xs: seq<nat>)
    ensures Without(xs, []) == xs
  {
    if xs != [] { KeepsAll(xs[1..]); }
  }

  lemma {:induction false} ChosenBest(t: Tree, s: seq<real>, agg: Agg, items: seq<Entry>, doms: seq<string>, k: nat)
    requires Scored(t, s) && Entries(t, s, agg, "", items) && InOrder(Ahead, items)
    requires |doms| == if k <= |items| then k else |items|
    requires forall m | 0 <= m < |doms| :: doms[m] == items[m].node
    ensures Chosen(t, s, agg, doms, k)
  {
    forall e | e in Children(t.ids, "") && e !in doms
      ensures |doms| == k && forall d | d in doms :: RegionScore(t, s, d, agg) >= RegionScore(t, s, e, agg)
    {
      var other := Entry(RegionScore(t, s, e, agg), false, e);
      var n :| 0 <= n < |items| && items[n] == other;
      assert n >= |doms|;
      forall d | d in doms ensures RegionScore(t, s, d, agg) >= other.score {
        var m :| 0 <= m < |doms| && doms[m] == d;
        assert items[m] in items && !items[m].own;
        assert Ahead(items[m], items[n]);
      }
    }
  }

  // ----- the soft bonus -----

  function Domain(id: string): string { Parts(id)[0] }

  /** Each way's domain score. */
  function Bonuses(t: Tree, s: seq<real>, agg: Agg): seq<real>
    requires Scored(t, s)
  {
    seq(|s|, j requires 0 <= j < |s| => RegionScore(t, s, Domain(t.ids[j]), agg))
  }

  function Softened(s: seq<real>, bonus: seq<real>, lam: real): seq<real>
    requires |bonus| == |s|
  {
    seq(|s|, j requires 0 <= j < |s| => s[j] + lam * bonus[j])
  }

  /** Each way's score with its domain's added in proportion. */
  function SoftScores(t: Tree, s: seq<real>, agg: Agg, lam: real): seq<real>
    requires Scored(t, s)
  {
    Softened(s, Bonuses(t, s, agg), lam)
  }

  predicate IsArgmax(s: seq<real>, j: nat) { j < |s| && forall i | 0 <= i < |s| :: s[i] <= s[j] }

  lemma {:induction false} BestOf(s: seq<real>) returns (j: nat)
    requires s != []
    ensures IsArgmax(s, j)
  {
    var m := Best(s);
    j :| j < |s| && s[j] == m;
    forall i | 0 <= i < |s| ensures s[i] <= s[j] { assert s[i] in s; }
  }

  lemma {:induction false} Weighted(lam: real, a: real, b: real)
    requires lam >= 0.0 && a <= b
    ensures lam * a <= lam * b
  {
  }

  /** Each way's domain is a child of the root, at or above the way. */
  lemma {:induction false} DomainAbove(ids: seq<string>, i: nat)
    requires FirstNamed(ids) && i < |ids|
    ensures Domain(ids[i]) in Children(ids, "") && Below(Domain(ids[i]), ids[i])
  {
    assert Name(Parts(ids[i]), 1) == Domain(ids[i]);
    NameSeg(ids[i], 1);
    ChildrenGood(ids, "", Domain(ids[i]));
  }

  /** A domain is worth at least each of its ways and at most the best of all. */
  lemma {:induction false} BonusBounds(t: Tree, s: seq<real>, agg: Agg, top: nat, i: nat)
    requires Scored(t, s) && TakesMax(agg) && IsArgmax(s, top) && i < |s|
    ensures s[i] <= Bonuses(t, s, agg)[i] <= s[top]
  {
    var b := RegionScore(t, s, Domain(t.ids[i]), agg);
    DomainAbove(t.ids, i);
    var best := RegionBest(t, s, Domain(t.ids[i]), agg, b, i);
    assert ScoreAt(s, i) <= b == s[best] <= s[top];
  }

  /** A way is raised by at most the best way's raise, and one as good as the best by just that. */
  lemma {:induction false} Raised(lam: real, b: real, own: real, top: real, p: real, x: real)
    requires lam >= 0.0 && own <= b <= top && p == lam * top && x == own + lam * b
    ensures x <= own + p && (own == top ==> x == own + p)
  {
    Weighted(lam, b, top);
  }

  /** What is raised by at most `p`, and the best by just that, keeps its argmaxes. */
  lemma {:induction false} ArgmaxKept(s: seq<real>, soft: seq<real>, p: real, top: nat, j: nat)
    requires |soft| == |s| && IsArgmax(s, top)
    requires forall i | 0 <= i < |s| :: soft[i] <= s[i] + p && (s[i] == s[top] ==> soft[i] == s[i] + p)
    ensures IsArgmax(soft, j) <==> IsArgmax(s, j)
  {
    if IsArgmax(soft, j) {
      assert soft[top] <= soft[j];
    }
    if IsArgmax(s, j) {
      assert s[top] <= s[j];
    }
  }

  lemma {:induction false} SoftenedArgmax(s: seq<real>, bonus: seq<real>, lam: real, top: nat, j: nat)
    requires |bonus| == |s| && lam >= 0.0 && IsArgmax(s, top)
    requires forall i | 0 <= i < |s| :: s[i] <= bonus[i] <= s[top]
    ensures IsArgmax(Softened(s, bonus, lam), j) <==> IsArgmax(s, j)
  {
    var soft, p := Softened(s, bonus, lam), lam * s[top];
    forall i | 0 <= i < |s| ensures soft[i] <= s[i] + p && (s[i] == s[top] ==> soft[i] == s[i] + p) {
      Raised(lam, bonus[i], s[i], s[top], p, soft[i]);
    }
    ArgmaxKept(s, soft, p, top, j);
  }

  /** With the maximum and a bonus of no negative weight, the soft argmaxes are the plain ones. */
  lemma {:induction false} SoftArgmax(t: Tree, s: seq<real>, agg: Agg, lam: real, j: nat)
    requires Scored(t, s) && TakesMax(agg) && lam >= 0.0
    ensures IsArgmax(SoftScores(t, s, agg, lam), j) <==> IsArgmax(s, j)
  {
    if s != [] {
      var top := BestOf(s);
      var bonus := Bonuses(t, s, agg);
      forall i | 0 <= i < |s| ensures s[i] <= bonus[i] <= s[top] {
        BonusBounds(t, s, agg, top, i);
      }
      SoftenedArgmax(s, bonus, lam, top, j);
    }
  }
}
