/** The tree of way ids (`subtree.py`). A node is the joined name of an id's first segments; the root's is
    empty, and an id that starts with a slash gives that name to a second node. */
module Subtree {
  import opened Basics

  function Parts(id: string): seq<string> { Split(id, '/') }

  /** The node of the first `k` segments. */
  function Name(parts: seq<string>, k: nat): string
    requires k <= |parts|
  {
    Join(parts[..k], '/')
  }

  // ----- what filing an id adds -----

  /** How many of the first `k` segments' nodes, after the root, bear the name. */
  function Filed(parts: seq<string>, node: string, k: nat): nat
    requires k <= |parts|
  {
    (if k == 0 then 0 else Filed(parts, node, k - 1)) + if Name(parts, k) == node then 1 else 0
  }

  /** The children that the first `k` segments give the name. */
  function Edges(parts: seq<string>, node: string, k: nat): set<string>
    requires k <= |parts|
  {
    if k == 0 then {} else
    Edges(parts, node, k - 1) + if Name(parts, k - 1) == node then {Name(parts, k)} else {}
  }

  function Repeat(j: nat, n: nat): (cols: seq<nat>)
    ensures |cols| == n && forall i | 0 <= i < n :: cols[i] == j
  {
    if n == 0 then [] else Repeat(j, n - 1) + [j]
  }

  /** The columns filed under a name, in column order. */
  function Under(ids: seq<string>, node: string): seq<nat>
  {
    if ids == [] then [] else
    var last: nat, parts := |ids| - 1, Parts(ids[|ids| - 1]);
    Under(ids[..last], node) + Repeat(last, Filed(parts, node, |parts|))
  }

  function Children(ids: seq<string>, node: string): set<string>
  {
    if ids == [] then {} else
    var parts := Parts(ids[|ids| - 1]);
    Children(ids[..|ids| - 1], node) + Edges(parts, node, |parts|)
  }

  // ----- the tree as built -----

  datatype Tree = Tree(
    ids: seq<string>, col: map<string, nat>, children: map<string, set<string>>, under: map<string, seq<nat>>)

  // the entries of a defaultdict
  function Kids(children: map<string, set<string>>, node: string): set<string>
  {
    if node in children then children[node] else {}
  }

  function Cols(under: map<string, seq<nat>>, node: string): seq<nat>
  {
    if node in under then under[node] else []
  }

  ghost predicate Columns(ids: seq<string>, col: map<string, nat>)
  {
    && (forall w :: w in col <==> w in ids)
    && (forall w | w in col :: col[w] < |ids| && ids[col[w]] == w)
  }

  ghost predicate KidsOf(children: map<string, set<string>>, ids: seq<string>)
  {
    forall node :: Kids(children, node) == Children(ids, node)
  }

  ghost predicate ColsOf(under: map<string, seq<nat>>, ids: seq<string>)
  {
    forall node :: Cols(under, node) == Under(ids, node)
  }

  ghost predicate Built(t: Tree)
  {
    Columns(t.ids, t.col) && KidsOf(t.children, t.ids) && ColsOf(t.under, t.ids)
  }

  /** The children of `done`'s nodes with the first `k` segments of one more id filed too. */
  ghost predicate KidsFiled(children: map<string, set<string>>, done: seq<string>, parts: seq<string>, k: nat)
    requires k <= |parts|
  {
    forall node :: Kids(children, node) == Children(done, node) + Edges(parts, node, k)
  }

  ghost predicate ColsFiled(under: map<string, seq<nat>>, done: seq<string>, parts: seq<string>, k: nat)
    requires k <= |parts|
  {
    forall node :: Cols(under, node) == Under(done, node) + Repeat(|done|, Filed(parts, node, k))
  }

  lemma {:induction false} FileEdge(children: map<string, set<string>>, done: seq<string>, parts: seq<string>,
                                    k: nat, prev: string, node: string)
    requires k < |parts| && KidsFiled(children, done, parts, k)
    requires prev == Name(parts, k) && node == Name(parts, k + 1)
    ensures KidsFiled(children[prev := Kids(children, prev) + {node}], done, parts, k + 1)
  {
    var kids := children[prev := Kids(children, prev) + {node}];
    forall n ensures Kids(kids, n) == Children(done, n) + Edges(parts, n, k + 1) {
      assert Kids(children, n) == Children(done, n) + Edges(parts, n, k);
      assert Edges(parts, n, k + 1) == Edges(parts, n, k) + if prev == n then {node} else {};
    }
  }

  lemma {:induction false} RepeatMore(front: seq<nat>, j: nat, f: nat)
    ensures (front + Repeat(j, f)) + [j] == front + Repeat(j, f + 1)
  {
    assert Repeat(j, f + 1) == Repeat(j, f) + [j];
  }

  /** One column more at `node`, none at any other. */
  lemma {:induction false} ColumnAt(under: map<string, seq<nat>>, front: seq<nat>, j: nat, f: nat, node: string,
                                    n: string, more: nat)
    requires Cols(under, n) == front + Repeat(j, f) && more == (if n == node then f + 1 else f)
    ensures Cols(under[node := Cols(under, node) + [j]], n) == front + Repeat(j, more)
  {
    if n == node { RepeatMore(front, j, f); }
  }

  lemma {:induction false} FileColumn(under: map<string, seq<nat>>, done: seq<string>, parts: seq<string>,
                                      k: nat, node: string)
    requires k < |parts| && ColsFiled(under, done, parts, k) && node == Name(parts, k + 1)
    ensures ColsFiled(under[node := Cols(under, node) + [|done|]], done, parts, k + 1)
  {
    var cols := under[node := Cols(under, node) + [|done|]];
    forall n ensures Cols(cols, n) == Under(done, n) + Repeat(|done|, Filed(parts, n, k + 1)) {
      FiledNext(parts, n, k, node);
      ColumnAt(under, Under(done, n), |done|, Filed(parts, n, k), node, n, Filed(parts, n, k + 1));
    }
  }

  lemma {:induction false} FiledNext(parts: seq<string>, n: string, k: nat, node: string)
    requires k < |parts| && node == Name(parts, k + 1)
    ensures Filed(parts, n, k + 1) == if n == node then Filed(parts, n, k) + 1 else Filed(parts, n, k)
  {
  }

  lemma {:induction false} FileRoot(under: map<string, seq<nat>>, done: seq<string>, parts: seq<string>)
    requires ColsOf(under, done)
    ensures ColsFiled(under["" := Cols(under, "") + [|done|]], done, parts, 0)
  {
    var cols := under["" := Cols(under, "") + [|done|]];
    forall n ensures Cols(cols, n) == Under(done, n) + Repeat(|done|, Filed(parts, n, 0)) {
      ColumnAt(under, Under(done, n), |done|, 0, "", n, Filed(parts, n, 0));
    }
  }

  lemma {:induction false} FiledAll(children: map<string, set<string>>, under: map<string, seq<nat>>,
                                    done: seq<string>, w: string)
    requires KidsFiled(children, done, Parts(w), |Parts(w)|) && ColsFiled(under, done, Parts(w), |Parts(w)|)
    ensures KidsOf(children, done + [w]) && ColsOf(under, done + [w])
  {
    assert (done + [w])[..|done|] == done;
  }

  lemma {:induction false} ColumnsStep(done: seq<string>, w: string, col: map<string, nat>)
    requires Columns(done, col)
    ensures Columns(done + [w], col[w := |done|])
  {
  }

  /** The body of the loop over the ids: files column `j`, id `w`, under its nodes. */
  method FileWay(children: map<string, set<string>>, under: map<string, seq<nat>>,
                 ghost done: seq<string>, w: string, j: nat)
    returns (kids: map<string, set<string>>, cols: map<string, seq<nat>>)
    requires KidsOf(children, done) && ColsOf(under, done) && j == |done|
    ensures KidsOf(kids, done + [w]) && ColsOf(cols, done + [w])
  {
    var parts := Parts(w);
    FileRoot(under, done, parts);
    kids := children;
    cols := under["" := Cols(under, "") + [j]];
    var prev := "";
    for k := 0 to |parts|
      invariant prev == Name(parts, k) && KidsFiled(kids, done, parts, k) && ColsFiled(cols, done, parts, k)
    {
      var node := Name(parts, k + 1);
      FileEdge(kids, done, parts, k, prev, node);
      FileColumn(cols, done, parts, k, node);
      kids := kids[prev := Kids(kids, prev) + {node}];
      cols := cols[node := Cols(cols, node) + [j]];
      prev := node;
    }
    FiledAll(kids, cols, done, w);
  }

  /** `Tree.__init__`: every node's children and columns, for any ids. */
  method Build(ids: seq<string>) returns (t: Tree)
    ensures t.ids == ids && Built(t)
  {
    var col: map<string, nat> := map[];
    var children: map<string, set<string>> := map[];
    var under: map<string, seq<nat>> := map[];
    for j := 0 to |ids|
      invariant Columns(ids[..j], col) && KidsOf(children, ids[..j]) && ColsOf(under, ids[..j])
    {
      ghost var done := ids[..j];
      assert ids[..j + 1] == done + [ids[j]];
      ColumnsStep(done, ids[j], col);
      col := col[ids[j] := j];
      children, under := FileWay(children, under, done, ids[j], j);
    }
    assert ids[..|ids|] == ids;
    t := Tree(ids, col, children, under);
  }

  // ----- nodes as prefixes -----

  predicate StartsNamed(id: string) { id != "" && id[0] != '/' }

  /** No id's first segment is empty. */
  predicate FirstNamed(ids: seq<string>) { forall i | 0 <= i < |ids| :: StartsNamed(ids[i]) }

  /** The segments a node's name stands for when no first segment is empty. */
  function Seg(node: string): seq<string> { if node == "" then [] else Parts(node) }

  predicate Below(node: string, id: string) { Seg(node) <= Parts(id) }

  lemma {:induction false} SegJoin(node: string)
    ensures Join(Seg(node), '/') == node
  {
    JoinSplit(node, '/');
  }

  lemma {:induction false} FirstPart(id: string)
    ensures Parts(id)[0] != "" <==> StartsNamed(id)
  {
  }

  lemma {:induction false} NameSeg(id: string, k: nat)
    requires StartsNamed(id) && k <= |Parts(id)|
    ensures Seg(Name(Parts(id), k)) == Parts(id)[..k]
  {
    var some := Parts(id)[..k];
    FirstPart(id);
    if k > 0 {
      SplitParts(id, '/');
      SplitJoin(some, '/');
      assert some[0] != "";
    }
  }

  lemma {:induction false} NameIs(id: string, k: nat, node: string)
    requires StartsNamed(id) && k <= |Parts(id)|
    ensures Name(Parts(id), k) == node <==> Below(node, id) && |Seg(node)| == k
  {
    NameSeg(id, k);
    SegJoin(node);
    assert Below(node, id) && |Seg(node)| == k ==> Seg(node) == Parts(id)[..k];
  }

  lemma {:induction false} FiledGood(id: string, node: string, k: nat)
    requires StartsNamed(id) && k <= |Parts(id)|
    ensures Filed(Parts(id), node, k) == if Below(node, id) && |Seg(node)| <= k then 1 else 0
  {
    NameIs(id, k, node);
    if k > 0 { FiledGood(id, node, k - 1); }
  }

  lemma {:induction false} EdgesGood(id: string, node: string, k: nat, ch: string)
    requires StartsNamed(id) && k <= |Parts(id)|
    ensures ch in Edges(Parts(id), node, k)
       <==> Below(node, id) && Below(ch, id) && |Seg(ch)| == |Seg(node)| + 1 <= k
  {
    if k > 0 {
      NameIs(id, k - 1, node);
      NameIs(id, k, ch);
      EdgesGood(id, node, k - 1, ch);
    }
  }

  /** The columns of exactly the ways at or below the node, each once. */
  lemma {:induction false} UnderGood(ids: seq<string>, node: string)
    requires FirstNamed(ids)
    ensures Distinct(Under(ids, node))
    ensures forall j: nat :: j in Under(ids, node) <==> j < |ids| && Below(node, ids[j])
  {
    if ids != [] {
      var last: nat, id := |ids| - 1, ids[|ids| - 1];
      UnderGood(ids[..last], node);
      FiledGood(id, node, |Parts(id)|);
      assert forall j: nat | j < last :: ids[..last][j] == ids[j];
      var more := Repeat(last, Filed(Parts(id), node, |Parts(id)|));
      DistinctConcat(Under(ids[..last], node), more);
    }
  }

  /** The columns ascend. */
  lemma {:induction false} UnderAscends(ids: seq<string>, node: string)
    requires FirstNamed(ids)
    ensures forall i, j | 0 <= i < j < |Under(ids, node)| :: Under(ids, node)[i] < Under(ids, node)[j]
  {
    if ids != [] {
      var last: nat, id := |ids| - 1, ids[|ids| - 1];
      UnderAscends(ids[..last], node);
      UnderGood(ids[..last], node);
      FiledGood(id, node, |Parts(id)|);
      var front := Under(ids[..last], node);
      assert forall i | 0 <= i < |front| :: front[i] in front;
    }
  }

  /** The children of a node: one segment more, at or above some way. */
  predicate IsChild(ids: seq<string>, node: string, ch: string)
  {
    |Seg(ch)| == |Seg(node)| + 1 && exists j | 0 <= j < |ids| :: Below(node, ids[j]) && Below(ch, ids[j])
  }

  lemma {:induction false} ChildrenGood(ids: seq<string>, node: string, ch: string)
    requires FirstNamed(ids)
    ensures ch in Children(ids, node) <==> IsChild(ids, node, ch)
  {
    if ids != [] {
      var last, id := |ids| - 1, ids[|ids| - 1];
      ChildrenGood(ids[..last], node, ch);
      EdgesGood(id, node, |Parts(id)|, ch);
      assert forall j | 0 <= j < last :: ids[..last][j] == ids[j];
    }
  }

  // ----- exactly when a name tells -----

  lemma {:induction false} RootTwice(id: string)
    requires !StartsNamed(id)
    ensures Name(Parts(id), 0) == "" == Name(Parts(id), 1)
    ensures "" in Edges(Parts(id), "", |Parts(id)|) && Filed(Parts(id), "", |Parts(id)|) >= 2
  {
    FirstPart(id);
    var parts := Parts(id);
    assert Name(parts, 1) == parts[0];
    EdgesGrow(parts, "", 1, |parts|);
    FiledGrows(parts, "", 1, |parts|);
    assert Edges(parts, "", 1) == Edges(parts, "", 0) + {""};
    assert Filed(parts, "", 1) == Filed(parts, "", 0) + 1;
  }

  lemma {:induction false} EdgesGrow(parts: seq<string>, node: string, j: nat, k: nat)
    requires j <= k <= |parts|
    ensures Edges(parts, node, j) <= Edges(parts, node, k)
  {
    if j < k { EdgesGrow(parts, node, j, k - 1); }
  }

  lemma {:induction false} FiledGrows(parts: seq<string>, node: string, j: nat, k: nat)
    requires j <= k <= |parts|
    ensures Filed(parts, node, j) <= Filed(parts, node, k)
  {
    if j < k { FiledGrows(parts, node, j, k - 1); }
  }

  /** Two nodes of the ids that share a name are the same segments. */
  predicate NamesTell(ids: seq<string>)
  {
    forall i, j, a, b
      | 0 <= i < |ids| && 0 <= j < |ids| && 0 <= a <= |Parts(ids[i])| && 0 <= b <= |Parts(ids[j])|
        && Name(Parts(ids[i]), a) == Name(Parts(ids[j]), b)
      :: Parts(ids[i])[..a] == Parts(ids[j])[..b]
  }

  /** A node's name tells it apart from every other exactly when no first segment is empty. */
  lemma {:induction false} NamesTellIff(ids: seq<string>)
    ensures NamesTell(ids) <==> FirstNamed(ids)
  {
    if FirstNamed(ids) {
      forall i, j, a, b
        | 0 <= i < |ids| && 0 <= j < |ids| && 0 <= a <= |Parts(ids[i])| && 0 <= b <= |Parts(ids[j])|
          && Name(Parts(ids[i]), a) == Name(Parts(ids[j]), b)
        ensures Parts(ids[i])[..a] == Parts(ids[j])[..b]
      {
        NameSeg(ids[i], a);
        NameSeg(ids[j], b);
      }
    } else {
      var i :| 0 <= i < |ids| && !StartsNamed(ids[i]);
      RootTwice(ids[i]);
      assert Parts(ids[i])[..0] != Parts(ids[i])[..1];
    }
  }

  lemma {:induction false} ChildrenHold(ids: seq<string>, node: string, i: nat)
    requires i < |ids|
    ensures Edges(Parts(ids[i]), node, |Parts(ids[i])|) <= Children(ids, node)
  {
    if i < |ids| - 1 { ChildrenHold(ids[..|ids| - 1], node, i); }
  }

  lemma {:induction false} UnderTwice(ids: seq<string>, node: string, i: nat)
    requires i < |ids| && Filed(Parts(ids[i]), node, |Parts(ids[i])|) >= 2
    ensures !Distinct(Under(ids, node))
  {
    var last: nat, parts := |ids| - 1, Parts(ids[|ids| - 1]);
    var front, all := Under(ids[..last], node), Under(ids, node);
    if i < last {
      UnderTwice(ids[..last], node, i);
      var m, n :| 0 <= m < n < |front| && front[m] == front[n];
      assert all[m] == all[n];
    } else {
      assert all[|front|] == all[|front| + 1];
    }
  }

  /** The root has each column once, and is not its own child, exactly when no first segment is empty. */
  lemma {:induction false} RootSoundIff(ids: seq<string>)
    ensures Distinct(Under(ids, "")) <==> FirstNamed(ids)
    ensures "" !in Children(ids, "") <==> FirstNamed(ids)
  {
    if FirstNamed(ids) {
      UnderGood(ids, "");
      ChildrenGood(ids, "", "");
    } else {
      var i: nat :| i < |ids| && !StartsNamed(ids[i]);
      RootTwice(ids[i]);
      UnderTwice(ids, "", i);
      ChildrenHold(ids, "", i);
    }
  }

  // ----- exactly when a descent ends -----

  /** A way down: each node a child of the one before. */
  ghost predicate Chain(ids: seq<string>, nodes: seq<string>)
  {
    forall i | 0 <= i < |nodes| - 1 :: nodes[i + 1] in Children(ids, nodes[i])
  }

  function Height(ids: seq<string>): (h: nat)
    ensures forall j | 0 <= j < |ids| :: |Parts(ids[j])| <= h
  {
    if ids == [] then 0 else
    var last := |ids| - 1;
    var h, n := Height(ids[..last]), |Parts(ids[last])|;
    assert forall j | 0 <= j < last :: ids[..last][j] == ids[j];
    if n > h then n else h
  }

  lemma {:induction false} ChildShape(ids: seq<string>, node: string, ch: string)
    requires FirstNamed(ids) && ch in Children(ids, node)
    ensures |Seg(ch)| == |Seg(node)| + 1 <= Height(ids) && Seg(node) <= Seg(ch)
    ensures exists j | 0 <= j < |ids| :: Below(ch, ids[j])
  {
    ChildrenGood(ids, node, ch);
  }

  lemma {:induction false} ChainDeepens(ids: seq<string>, nodes: seq<string>, i: nat)
    requires FirstNamed(ids) && Chain(ids, nodes) && i < |nodes|
    ensures i <= |Seg(nodes[i])| && (i == 0 || |Seg(nodes[i])| <= Height(ids))
  {
    if i > 0 {
      ChainDeepens(ids, nodes, i - 1);
      ChildShape(ids, nodes[i - 1], nodes[i]);
    }
  }

  /** No way down from the root has more than `n` nodes. */
  ghost predicate Bounded(ids: seq<string>, n: nat)
  {
    forall nodes | Chain(ids, nodes) && nodes != [] && nodes[0] == "" :: |nodes| <= n
  }

  /** The ways down from the root are bounded, so an uncut descent ends, exactly when no first segment is
      empty. */
  lemma {:induction false} DescentEndsIff(ids: seq<string>)
    ensures (exists n: nat :: Bounded(ids, n)) <==> FirstNamed(ids)
  {
    if FirstNamed(ids) {
      forall nodes | Chain(ids, nodes) && nodes != [] && nodes[0] == "" ensures |nodes| <= Height(ids) + 1 {
        ChainDeepens(ids, nodes, |nodes| - 1);
      }
      assert Bounded(ids, Height(ids) + 1);
    } else {
      RootSoundIff(ids);
      forall n: nat ensures !Bounded(ids, n) {
        var nodes := seq(n + 1, _ => "");
        assert Chain(ids, nodes) && nodes[0] == "";
      }
    }
  }

  /** Each way's own score is found by its id exactly when no id is given twice. */
  lemma {:induction false} OwnColumnIff(t: Tree)
    requires Columns(t.ids, t.col)
    ensures (forall j | 0 <= j < |t.ids| :: t.ids[j] in t.col && t.col[t.ids[j]] == j) <==> Distinct(t.ids)
  {
    if Distinct(t.ids) {
      forall j | 0 <= j < |t.ids| ensures t.ids[j] in t.col && t.col[t.ids[j]] == j {
        assert t.ids[j] in t.ids;
      }
    } else {
      var i, j :| 0 <= i < j < |t.ids| && t.ids[i] == t.ids[j];
    }
  }

  /** At the id "/x" the root is its own child, and has the one way's column twice. */
  lemma {:induction false} LeadingSlash()
    ensures Children(["/x"], "") == {"", "/x"} && Under(["/x"], "") == [0, 0]
  {
    var parts: seq<string> := ["", "x"];
    SplitPlain("x", '/');
    assert "/x"[1..] == "x";
    assert Parts("/x") == parts;
    assert parts[..0] == [] && parts[..1] == [""] && parts[..2] == parts;
    assert parts[1..] == ["x"];
    assert Name(parts, 0) == "" && Name(parts, 1) == "" && Name(parts, 2) == "/x";
    assert Edges(parts, "", 1) == Edges(parts, "", 0) + {""};
    assert Filed(parts, "", 0) == 1 && Filed(parts, "", 1) == 2 && Filed(parts, "", 2) == 2;
    assert Repeat(0, 2) == Repeat(0, 1) + [0] && Repeat(0, 1) == Repeat(0, 0) + [0];
    OneId("/x", "");
  }

  lemma {:induction false} OneId(id: string, node: string)
    ensures Children([id], node) == Edges(Parts(id), node, |Parts(id)|)
    ensures Under([id], node) == Repeat(0, Filed(Parts(id), node, |Parts(id)|))
  {
    assert [id][..0] == [];
  }
}
