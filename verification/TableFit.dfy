/** Fitting a table's columns to the terminal (`table.rs`): the widest column gives up a cell at a time. */
module TableFit {
  import opened Basics

  datatype Align = Left | Right

  /** A column: its capped width, its alignment, and whether its caller sized it. */
  datatype Column = Column(width: nat, align: Align, pinned: bool)

  const FLOOR: nat := 4

  function Sum(ws: seq<nat>): nat { if ws == [] then 0 else Sum(ws[..|ws| - 1]) + ws[|ws| - 1] }

  function Starts(cols: seq<Column>): (ws: seq<nat>)
    ensures |ws| == |cols| && forall i | 0 <= i < |cols| :: ws[i] == cols[i].width
  {
    seq(|cols|, i requires 0 <= i < |cols| => cols[i].width)
  }

  /** As narrow as a column goes. */
  function Floor(c: Column): (f: nat)
    ensures f <= c.width && (c.pinned ==> f == c.width)
    ensures !c.pinned ==> f <= 4 && (f == 4 || f == c.width)
  {
    if c.pinned || c.width <= FLOOR then c.width else FLOOR
  }

  function Floors(cols: seq<Column>): (ws: seq<nat>)
    ensures |ws| == |cols| && forall i | 0 <= i < |cols| :: ws[i] == Floor(cols[i])
  {
    seq(|cols|, i requires 0 <= i < |cols| => Floor(cols[i]))
  }

  // ----- what a fit is -----

  predicate Loose(cols: seq<Column>, i: nat, align: Align)
  {
    i < |cols| && !cols[i].pinned && cols[i].align == align
  }

  predicate Narrowed(cols: seq<Column>, ws: seq<nat>, i: nat)
  {
    i < |cols| == |ws| && ws[i] < cols[i].width
  }

  predicate InBounds(cols: seq<Column>, ws: seq<nat>)
  {
    |ws| == |cols| && forall i | 0 <= i < |cols| :: Floor(cols[i]) <= ws[i] <= cols[i].width
  }

  /** A narrowed column is no narrower than its kind: level with those after it, and at most one cell
      below those before it. */
  predicate Level(cols: seq<Column>, ws: seq<nat>, align: Align)
    requires |ws| == |cols|
  {
    forall i, j | 0 <= i < |cols| && 0 <= j < |cols| ::
      Loose(cols, i, align) && Loose(cols, j, align) && Narrowed(cols, ws, i)
      ==> ws[j] <= ws[i] + (if j < i then 1 else 0)
  }

  /** A right-aligned column is narrowed only once every left-aligned one is at the floor or below. */
  predicate NumbersLast(cols: seq<Column>, ws: seq<nat>)
    requires |ws| == |cols|
  {
    forall i, j | 0 <= i < |cols| && 0 <= j < |cols| ::
      Loose(cols, i, Right) && Narrowed(cols, ws, i) && Loose(cols, j, Left) ==> ws[j] <= FLOOR
  }

  predicate Balanced(cols: seq<Column>, ws: seq<nat>)
  {
    InBounds(cols, ws) && Level(cols, ws, Left) && Level(cols, ws, Right) && NumbersLast(cols, ws)
  }

  function Max(a: nat, b: nat): nat { if a < b then b else a }

  /** The widths a table narrowed to `available` ends with. */
  predicate Fitted(cols: seq<Column>, ws: seq<nat>, available: nat)
  {
    && Balanced(cols, ws)
    && Sum(ws) == if Sum(Starts(cols)) <= available then Sum(Starts(cols)) else Max(available, Sum(Floors(cols)))
  }

  // ----- sums -----

  lemma {:induction false} SumLess(a: seq<nat>, b: seq<nat>)
    requires |a| == |b| && forall i | 0 <= i < |a| :: a[i] <= b[i]
    ensures Sum(a) <= Sum(b)
    ensures Sum(a) == Sum(b) ==> a == b
    decreases |a|
  {
    if a != [] {
      var n := |a| - 1;
      var front, other := a[..n], b[..n];
      SumLess(front, other);
      if Sum(a) == Sum(b) {
        assert front == other && a[n] == b[n];
        assert a == front + [a[n]] && b == other + [b[n]];
      }
    }
  }

  lemma {:induction false} SumUpdate(ws: seq<nat>, i: nat, w: nat)
    requires i < |ws|
    ensures Sum(ws[i := w]) == Sum(ws) - ws[i] + w
    decreases |ws|
  {
    var last := |ws| - 1;
    if i < last {
      SumUpdate(ws[..last], i, w);
      assert ws[i := w][..last] == ws[..last][i := w];
    } else {
      assert ws[i := w][..last] == ws[..last];
    }
  }

  // ----- there is one fit -----

  lemma {:induction false} LevelAt(cols: seq<Column>, ws: seq<nat>, i: nat, j: nat)
    requires Balanced(cols, ws) && i < |cols| && j < |cols|
    ensures ws[i] < cols[i].width ==> !cols[i].pinned && ws[i] >= FLOOR
    ensures ws[i] < cols[i].width && !cols[j].pinned && cols[i].align == cols[j].align
            ==> ws[j] <= ws[i] + (if j < i then 1 else 0)
    ensures ws[i] < cols[i].width && !cols[j].pinned && cols[i].align == Right && cols[j].align == Left
            ==> ws[j] <= FLOOR
  {
    assert Narrowed(cols, ws, i) <==> ws[i] < cols[i].width;
    assert Loose(cols, j, cols[j].align) <==> !cols[j].pinned;
    assert Loose(cols, i, cols[i].align) <==> !cols[i].pinned;
  }

  /** One fit is not below another in one column and above it in another. */
  lemma {:induction false} Crossed(cols: seq<Column>, a: seq<nat>, b: seq<nat>, i: nat, j: nat)
    requires Balanced(cols, a) && Balanced(cols, b) && i < |cols| && j < |cols|
    ensures !(a[i] < b[i] && b[j] < a[j])
  {
    LevelAt(cols, a, i, j);
    LevelAt(cols, b, j, i);
    LevelAt(cols, b, i, j);
    LevelAt(cols, a, j, i);
  }

  /** Two fits of the same columns to the same width are the same: the conditions leave no choice. */
  lemma {:induction false} FitUnique(cols: seq<Column>, a: seq<nat>, b: seq<nat>, available: nat)
    requires Fitted(cols, a, available) && Fitted(cols, b, available)
    ensures a == b
  {
    if exists i: nat :: i < |cols| && a[i] < b[i] {
      var i: nat :| i < |cols| && a[i] < b[i];
      forall j | 0 <= j < |cols| ensures a[j] <= b[j] { Crossed(cols, a, b, i, j); }
      SumLess(a, b);
    } else {
      SumLess(b, a);
    }
  }

  // ----- the loop -----

  /** Left-aligned columns give first. */
  predicate Gives(cols: seq<Column>, ws: seq<nat>, i: nat, align: Align)
  {
    i < |cols| == |ws| && Loose(cols, i, align) && ws[i] > FLOOR
  }

  /** `max_by_key` over the columns that can give: the last of the widest. */
  method Pick(cols: seq<Column>, ws: seq<nat>, align: Align) returns (best: Option<nat>)
    requires |ws| == |cols|
    ensures best.None? ==> forall i: nat | i < |cols| :: !Gives(cols, ws, i, align)
    ensures best.Some? ==> Gives(cols, ws, best.value, align)
    ensures best.Some? ==> forall j: nat | j < |cols| && Gives(cols, ws, j, align) ::
      ws[j] <= ws[best.value] && (j > best.value ==> ws[j] < ws[best.value])
  {
    best := None;
    for i := 0 to |cols|
      invariant best.None? ==> forall j: nat | j < i :: !Gives(cols, ws, j, align)
      invariant best.Some? ==> best.value < i && Gives(cols, ws, best.value, align)
      invariant best.Some? ==> forall j: nat | j < i && Gives(cols, ws, j, align) ::
        ws[j] <= ws[best.value] && (j > best.value ==> ws[j] < ws[best.value])
    {
      if Loose(cols, i, align) && ws[i] > FLOOR && (best.None? || ws[i] >= ws[best.value]) {
        best := Some(i);
      }
    }
  }

  /** The column to narrow next: the last of the widest left-aligned ones, or where none can give, of the
      right-aligned ones. */
  predicate NextToGive(cols: seq<Column>, ws: seq<nat>, i: nat)
  {
    && i < |cols| == |ws| && Gives(cols, ws, i, cols[i].align)
    && (forall j: nat | j < |cols| && Gives(cols, ws, j, cols[i].align) ::
          ws[j] <= ws[i] && (j > i ==> ws[j] < ws[i]))
    && (cols[i].align == Right ==> forall j: nat | j < |cols| :: !Gives(cols, ws, j, Left))
  }

  predicate NoneGives(cols: seq<Column>, ws: seq<nat>)
  {
    forall i: nat | i < |cols| :: !Gives(cols, ws, i, Left) && !Gives(cols, ws, i, Right)
  }

  method PickEither(cols: seq<Column>, ws: seq<nat>) returns (i: Option<nat>)
    requires |ws| == |cols|
    ensures if i.None? then NoneGives(cols, ws) else NextToGive(cols, ws, i.value)
  {
    i := Pick(cols, ws, Left);
    if i.None? { i := Pick(cols, ws, Right); }
  }

  /** Taking a cell from the last of the widest keeps the balance. */
  lemma {:induction false} NarrowOne(cols: seq<Column>, ws: seq<nat>, i: nat, after: seq<nat>)
    requires Balanced(cols, ws) && NextToGive(cols, ws, i) && after == ws[i := ws[i] - 1]
    ensures Balanced(cols, after)
  {
    forall k, j | 0 <= k < |cols| && 0 <= j < |cols| && cols[k].align == cols[j].align
      && Loose(cols, k, cols[k].align) && Loose(cols, j, cols[k].align) && Narrowed(cols, after, k)
      ensures after[j] <= after[k] + (if j < k then 1 else 0)
    {
      if k != i { assert Narrowed(cols, ws, k); }
      if k == i && j != i { assert Gives(cols, ws, j, cols[i].align) || ws[j] <= FLOOR; }
    }
    forall k, j | 0 <= k < |cols| && 0 <= j < |cols|
      && Loose(cols, k, Right) && Narrowed(cols, after, k) && Loose(cols, j, Left)
      ensures after[j] <= FLOOR
    {
      if k != i { assert Narrowed(cols, ws, k); } else { assert !Gives(cols, ws, j, Left); }
    }
  }

  /** With nothing left to give every column is at its floor. */
  lemma {:induction false} AllAtFloor(cols: seq<Column>, ws: seq<nat>)
    requires Balanced(cols, ws)
    requires NoneGives(cols, ws)
    ensures ws == Floors(cols)
  {
    forall i | 0 <= i < |cols| ensures ws[i] == Floor(cols[i]) {
      assert !Gives(cols, ws, i, cols[i].align);
    }
  }

  /** What the narrowing loop keeps; `start` is what the columns take before it. */
  predicate Narrowing(cols: seq<Column>, ws: seq<nat>, total: nat, start: nat, available: nat)
  {
    Balanced(cols, ws) && total <= start && (ws == Starts(cols) || total >= available)
  }

  lemma {:induction false} SumStep(ws: seq<nat>, i: nat, next: seq<nat>)
    requires i < |ws| && ws[i] > 0 && next == ws[i := ws[i] - 1]
    ensures Sum(next) + 1 == Sum(ws)
  {
    SumUpdate(ws, i, ws[i] - 1);
  }

  lemma {:induction false} NarrowDone(cols: seq<Column>, ws: seq<nat>, total: nat, start: nat, available: nat)
    requires Narrowing(cols, ws, total, start, available) && total == Sum(ws) && start == Sum(Starts(cols))
    requires total <= available || NoneGives(cols, ws)
    ensures Fitted(cols, ws, available)
  {
    SumLess(Floors(cols), ws);
    if total > available {
      AllAtFloor(cols, ws);
    }
  }

  /** The narrowing loop of `widths`. */
  method Narrow(cols: seq<Column>, available: nat) returns (ws: seq<nat>)
    ensures Fitted(cols, ws, available)
  {
    ws := Starts(cols);
    var total: nat := Sum(ws);
    ghost var start: nat := total;
    while total > available
      invariant Narrowing(cols, ws, total, start, available) && total == Sum(ws)
      decreases total
    {
      var i := PickEither(cols, ws);
      if i.None? { break; }
      var at := i.value;
      assert ws[at] > FLOOR;
      var next := ws[at := ws[at] - 1];
      NarrowOne(cols, ws, at, next);
      SumStep(ws, at, next);
      ws := next;
      total := total - 1;
    }
    NarrowDone(cols, ws, total, start, available);
  }

  /** What is left of a terminal for the columns: saturating. */
  function Available(term: nat, indent: nat, n: nat): nat
    requires n > 0
  {
    if term > indent + n - 1 then term - (indent + n - 1) else 0
  }

  /** Spare width goes to the first column. */
  function Spread(fit: seq<nat>, available: nat): seq<nat>
    requires fit != []
  {
    if Sum(fit) < available then fit[0 := fit[0] + (available - Sum(fit))] else fit
  }

  /** `widths`: the one fit, with spare width given to the first column. */
  method Widths(cols: seq<Column>, indent: nat, term: Option<nat>) returns (ws: seq<nat>, ghost fit: seq<nat>)
    ensures term.None? || cols == [] ==> ws == Starts(cols)
    ensures term.Some? && cols != [] ==>
      var available := Available(term.value, indent, |cols|);
      Fitted(cols, fit, available) && ws == Spread(fit, available)
  {
    ws := Starts(cols);
    fit := ws;
    if term.None? || cols == [] { return; }
    var available := Available(term.value, indent, |cols|);
    ws := Narrow(cols, available);
    fit := ws;
    var total: nat := Sum(ws);
    if total < available {
      ws := ws[0 := ws[0] + (available - total)];
    }
  }

  lemma {:induction false} SpreadFills(fit: seq<nat>, available: nat)
    requires fit != []
    ensures var ws := Spread(fit, available);
            |ws| == |fit| && Sum(ws) == Max(available, Sum(fit)) && forall i | 0 <= i < |fit| :: ws[i] >= fit[i]
  {
    if Sum(fit) < available {
      SumUpdate(fit, 0, fit[0] + (available - Sum(fit)));
    }
  }

  /** The widths fill what is available exactly, unless the floors alone are wider, and no pinned column
      is narrower than its caller made it. */
  lemma {:induction false} WidthsFill(cols: seq<Column>, fit: seq<nat>, available: nat)
    requires cols != [] && Fitted(cols, fit, available)
    ensures var ws := Spread(fit, available);
            && |ws| == |cols| && Sum(ws) == Max(available, Sum(Floors(cols)))
            && (forall i | 0 <= i < |cols| && cols[i].pinned :: ws[i] >= cols[i].width)
            && (forall i | 0 <= i < |cols| :: ws[i] >= Floor(cols[i]))
  {
    SumLess(Floors(cols), Starts(cols));
    SumLess(Floors(cols), fit);
    SpreadFills(fit, available);
  }

  /** A pinned column keeps its width, except that a first one is widened exactly when width is spare. */
  lemma {:induction false} PinnedKept(cols: seq<Column>, fit: seq<nat>, available: nat, i: nat)
    requires i < |cols| && cols[i].pinned && Fitted(cols, fit, available)
    ensures Spread(fit, available)[i] == cols[i].width <==> i > 0 || Sum(Starts(cols)) >= available
  {
    SumLess(Floors(cols), Starts(cols));
    SumLess(fit, Starts(cols));
  }
}
