/** The area under the ROC curve from sorted ranks (`judge_ab.py`) against its definition over all
    pairs (`run.py`), over the reals. */
module Auc {
  import opened Basics

  /** A score with 1 for a positive and 0 for a negative. */
  datatype Item = Item(value: real, mark: int)

  // ----- the definition -----

  /** What a positive at `p` scores against `q`: a win, half for a tie, nothing for a loss. */
  function Win(p: real, q: real): real { if p > q then 1.0 else if p == q then 0.5 else 0.0 }

  function Wins(p: real, xs: seq<real>): real { if xs == [] then 0.0 else Win(p, xs[0]) + Wins(p, xs[1..]) }

  function AllWins(ps: seq<real>, xs: seq<real>): real
  {
    if ps == [] then 0.0 else Wins(ps[0], xs) + AllWins(ps[1..], xs)
  }

  /** `auroc`: wins plus half the ties over all pairs; there is no number for an empty side. */
  function Auroc(pos: seq<real>, neg: seq<real>): Option<real>
  {
    if pos == [] || neg == [] then None else Some(AllWins(pos, neg) / (|pos| as real * |neg| as real))
  }

  // ----- facts about wins -----

  lemma {:induction false} WinsConcat(p: real, a: seq<real>, b: seq<real>)
    ensures Wins(p, a + b) == Wins(p, a) + Wins(p, b)
  {
    if a == [] {
      assert a + b == b;
    } else {
      assert (a + b)[1..] == a[1..] + b;
      WinsConcat(p, a[1..], b);
    }
  }

  /** Against scores that are all worth `w` to `p`. */
  lemma {:induction false} WinsUniform(p: real, xs: seq<real>, w: real)
    requires forall k | 0 <= k < |xs| :: Win(p, xs[k]) == w
    ensures Wins(p, xs) == |xs| as real * w
  {
    if xs != [] {
      WinsUniform(p, xs[1..], w);
      assert |xs| as real * w == w + (|xs| - 1) as real * w;
    }
  }

  lemma {:induction false} AllWinsSnoc(ps: seq<real>, p: real, xs: seq<real>)
    ensures AllWins(ps + [p], xs) == AllWins(ps, xs) + Wins(p, xs)
  {
    if ps == [] {
      assert (ps + [p])[1..] == [];
    } else {
      assert (ps + [p])[1..] == ps[1..] + [p];
      AllWinsSnoc(ps[1..], p, xs);
    }
  }

  lemma {:induction false} AllWinsConcat(ps: seq<real>, a: seq<real>, b: seq<real>)
    ensures AllWins(ps, a + b) == AllWins(ps, a) + AllWins(ps, b)
  {
    if ps != [] {
      WinsConcat(ps[0], a, b);
      AllWinsConcat(ps[1..], a, b);
    }
  }

  /** Over every pair one side wins, or both take half. */
  lemma {:induction false} WinsSumToPairs(ps: seq<real>, xs: seq<real>)
    ensures AllWins(ps, xs) + AllWins(xs, ps) == |ps| as real * |xs| as real
  {
    if ps == [] {
      AllWinsEmpty(xs);
    } else {
      WinsSumToPairs(ps[1..], xs);
      AllWinsConcat(xs, [ps[0]], ps[1..]);
      assert [ps[0]] + ps[1..] == ps;
      OneAgainstAll(ps[0], xs);
      assert |ps| as real * |xs| as real == |xs| as real + (|ps| - 1) as real * |xs| as real;
    }
  }

  lemma {:induction false} AllWinsEmpty(xs: seq<real>)
    ensures AllWins(xs, []) == 0.0
  {
    if xs != [] { AllWinsEmpty(xs[1..]); }
  }

  lemma {:induction false} OneAgainstAll(p: real, xs: seq<real>)
    ensures Wins(p, xs) + AllWins(xs, [p]) == |xs| as real
  {
    if xs != [] {
      OneAgainstAll(p, xs[1..]);
      assert Wins(xs[0], [p]) == Win(xs[0], p);
    }
  }

  // ----- sorting -----

  predicate Before(a: Item, b: Item) { a.value < b.value || (a.value == b.value && a.mark <= b.mark) }

  predicate Ordered(items: seq<Item>) { forall i, j | 0 <= i < j < |items| :: items[i].value <= items[j].value }

  /** Python's `sorted` over the labelled scores. */
  function Sorted(items: seq<Item>): seq<Item> { SortBy(Before, items) }

  function Values(items: seq<Item>): (vs: seq<real>)
    ensures |vs| == |items| && forall i | 0 <= i < |items| :: vs[i] == items[i].value
  {
    seq(|items|, i requires 0 <= i < |items| => items[i].value)
  }

  function Labelled(vs: seq<real>, mark: int): (items: seq<Item>)
    ensures Values(items) == vs
  {
    seq(|vs|, i requires 0 <= i < |vs| => Item(vs[i], mark))
  }

  lemma {:induction false} SortedOrdered(items: seq<Item>)
    ensures Ordered(Sorted(items))
  {
    SortOrders(Before, items);
    var sorted := Sorted(items);
    assert forall i, j | 0 <= i < j < |sorted| :: Before(sorted[i], sorted[j]);
  }

  lemma {:induction false} InsertWins(p: real, x: Item, items: seq<Item>)
    ensures Wins(p, Values(Insert(Before, x, items))) == Win(p, x.value) + Wins(p, Values(items))
  {
    if items == [] || Before(x, items[0]) {
      assert Values([x] + items)[1..] == Values(items);
    } else {
      InsertWins(p, x, items[1..]);
      var rest := Insert(Before, x, items[1..]);
      assert Values([items[0]] + rest)[1..] == Values(rest);
      assert Values(items)[1..] == Values(items[1..]);
    }
  }

  /** Sorting changes no score's wins. */
  lemma {:induction false} SortedWins(p: real, items: seq<Item>)
    ensures Wins(p, Values(Sorted(items))) == Wins(p, Values(items))
  {
    if items != [] {
      SortedWins(p, items[1..]);
      InsertWins(p, items[0], Sorted(items[1..]));
      assert Values(items)[1..] == Values(items[1..]);
    }
  }

  // ----- the ranks -----

  /** In an ordered list the run `[i, j)` of one value wins against `i` scores and ties with `j - i`. */
  lemma {:induction false} RunWins(items: seq<Item>, i: nat, j: nat)
    requires Ordered(items) && i < j <= |items|
    requires i > 0 ==> items[i - 1].value < items[i].value
    requires forall k | i <= k < j :: items[k].value == items[i].value
    requires j < |items| ==> items[j].value > items[i].value
    ensures Wins(items[i].value, Values(items)) == (i + j) as real / 2.0
  {
    var p, vs := items[i].value, Values(items);
    assert forall k | 0 <= k < |vs| :: vs[k] == items[k].value;
    RunsAt(p, vs, i, j);
    RunPlace(i, j);
  }

  lemma {:induction false} RunsAt(p: real, vs: seq<real>, i: nat, j: nat)
    requires i <= j <= |vs|
    requires forall k | 0 <= k < |vs| :: if k < i then vs[k] < p else if k < j then vs[k] == p else vs[k] > p
    ensures Wins(p, vs) == i as real + (j - i) as real * 0.5
  {
    var below, same, above := vs[..i], vs[i..j], vs[j..];
    assert vs == below + same + above;
    ThreeRuns(p, below, same, above);
  }

  lemma {:induction false} RunPlace(i: nat, j: nat)
    requires i <= j
    ensures i as real + (j - i) as real * 0.5 == (i + j) as real / 2.0
  {
  }

  lemma {:induction false} ThreeRuns(p: real, below: seq<real>, same: seq<real>, above: seq<real>)
    requires forall k | 0 <= k < |below| :: below[k] < p
    requires forall k | 0 <= k < |same| :: same[k] == p
    requires forall k | 0 <= k < |above| :: above[k] > p
    ensures Wins(p, below + same + above) == |below| as real + |same| as real * 0.5
  {
    WinsUniform(p, below, 1.0);
    WinsUniform(p, same, 0.5);
    WinsUniform(p, above, 0.0);
    WinsConcat(p, below, same);
    WinsConcat(p, below + same, above);
  }

  /** The rank of a value: the places of its run, averaged. */
  ghost predicate RankedTo(ranks: map<real, real>, items: seq<Item>, i: nat)
    requires i <= |items|
  {
    && (forall k | 0 <= k < i :: items[k].value in ranks)
    && (forall v | v in ranks :: ranks[v] == Wins(v, Values(items)) + 0.5)
  }

  /** Walks the sorted items run by run, and gives each value its average place. */
  method Ranks(vals: seq<Item>) returns (ranks: map<real, real>)
    requires Ordered(vals)
    ensures RankedTo(ranks, vals, |vals|)
  {
    ranks := map[];
    var i := 0;
    while i < |vals|
      invariant 0 <= i <= |vals|
      invariant 0 < i < |vals| ==> vals[i - 1].value < vals[i].value
      invariant RankedTo(ranks, vals, i)
    {
      var j := i;
      while j < |vals| && vals[j].value == vals[i].value
        invariant i <= j <= |vals|
        invariant forall k | i <= k < j :: vals[k].value == vals[i].value
      {
        j := j + 1;
      }
      RunWins(vals, i, j);
      ranks := ranks[vals[i].value := (i + j + 1) as real / 2.0];
      i := j;
    }
  }

  /** What the ranks sum to, less the places the positives take among themselves. */
  lemma {:induction false} RankSum(pos: seq<real>, neg: seq<real>)
    ensures AllWins(pos, pos + neg) + 0.5 * |pos| as real - |pos| as real * (|pos| + 1) as real / 2.0
         == AllWins(pos, neg)
  {
    AllWinsConcat(pos, pos, neg);
    WinsSumToPairs(pos, pos);
    var n := |pos| as real;
    assert n * (n + 1.0) == n * n + n;
  }

  /** The rank form is the pairwise definition, with any pattern of ties. */
  method RankAuc(pos: seq<real>, neg: seq<real>) returns (r: Option<real>)
    ensures r == Auroc(pos, neg)
  {
    if pos == [] || neg == [] { return None; }
    var items := Labelled(pos, 1) + Labelled(neg, 0);
    var vals := Sorted(items);
    SortedOrdered(items);
    var ranks := Ranks(vals);
    assert Values(items) == pos + neg;
    var rsum := 0.0;
    for k := 0 to |pos|
      invariant rsum == AllWins(pos[..k], pos + neg) + 0.5 * k as real
    {
      assert pos[..k + 1] == pos[..k] + [pos[k]];
      AllWinsSnoc(pos[..k], pos[k], pos + neg);
      Known(ranks, pos, neg, k);
      rsum := rsum + ranks[pos[k]];
    }
    assert pos[..|pos|] == pos;
    RankSum(pos, neg);
    r := Some((rsum - |pos| as real * (|pos| + 1) as real / 2.0) / (|pos| as real * |neg| as real));
  }

  /** Every positive has a rank, and it is its wins over the whole list and a half. */
  lemma {:induction false} Known(ranks: map<real, real>, pos: seq<real>, neg: seq<real>, k: nat)
    requires k < |pos|
    requires var vals := Sorted(Labelled(pos, 1) + Labelled(neg, 0)); RankedTo(ranks, vals, |vals|)
    ensures pos[k] in ranks && ranks[pos[k]] == Wins(pos[k], pos + neg) + 0.5
  {
    var items := Labelled(pos, 1) + Labelled(neg, 0);
    assert Values(items) == pos + neg;
    SortedWins(pos[k], items);
    SortKeeps(Before, items);
    assert items[k] in items && items[k].value == pos[k];
    var m :| 0 <= m < |Sorted(items)| && Sorted(items)[m] == items[k];
    assert Sorted(items)[m].value in ranks;
  }

  lemma {:induction false} WinsPositive(ps: seq<real>, xs: seq<real>)
    ensures AllWins(ps, xs) >= 0.0
  {
    if ps != [] {
      WinsPositive(ps[1..], xs);
      OneWinsPositive(ps[0], xs);
    }
  }

  lemma {:induction false} OneWinsPositive(p: real, xs: seq<real>)
    ensures Wins(p, xs) >= 0.0
  {
    if xs != [] { OneWinsPositive(p, xs[1..]); }
  }

  lemma {:induction false} SumIsOne(x: real, y: real, n: real, p: real)
    requires n > 0.0 && p == (x + y) * n && p == n
    ensures x + y == 1.0
  {
  }

  lemma {:induction false} Share(a: real, b: real, n: real, x: real, y: real)
    requires a >= 0.0 && b >= 0.0 && n > 0.0 && a + b == n && x == a / n && y == b / n
    ensures x * n == a && 0.0 <= x <= 1.0 && x + y == 1.0
  {
    assert x * n == a && y * n == b;
    assert (x + y) * n == x * n + y * n;
    SumIsOne(x, y, n, (x + y) * n);
  }

  /** With both sides there is an area: the share of the pairs that are won, and with the sides exchanged what is
      left to one. */
  lemma {:induction false} AreaIsShare(pos: seq<real>, neg: seq<real>)
    ensures Auroc(pos, neg).None? <==> pos == [] || neg == []
    ensures pos != [] && neg != [] ==>
              var a := Auroc(pos, neg).value;
              && a * (|pos| as real * |neg| as real) == AllWins(pos, neg)
              && 0.0 <= a <= 1.0 && Auroc(neg, pos) == Some(1.0 - a)
  {
    if pos != [] && neg != [] {
      WinsPositive(pos, neg);
      WinsPositive(neg, pos);
      WinsSumToPairs(pos, neg);
      var n := |pos| as real * |neg| as real;
      assert |neg| as real * |pos| as real == n;
      Share(AllWins(pos, neg), AllWins(neg, pos), n, AllWins(pos, neg) / n, AllWins(neg, pos) / n);
    }
  }
}
