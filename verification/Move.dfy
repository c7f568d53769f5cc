/** Following a moved session to the id that goes on (`move.ts`): a watch reading the id on a backoff
    races the turns to settle it. */
module Move {
  import opened Basics

  type Id = string
  datatype Reason = Clear | Resume
  datatype Record = Record(ended: seq<Id>, reason: Reason, wasOn: bool)

  const FIRST_MS: nat := 250
  const MAX_MS: nat := 2_000
  const GIVE_UP_MS: nat := 300_000

  datatype Outcome = Settle(record: Record) | Wait(delayMs: nat) | GiveUp(record: Record) | Gone

  // ----- what a slot holds, as a value -----

  datatype Watch = Watch(record: Record, waitedMs: nat, delayMs: nat)
  datatype View = View(move: Option<Watch>, gaveUp: Option<Record>)

  function Fresh(record: Record): Watch { Watch(record, 0, FIRST_MS) }

  function Dropping(ids: seq<Id>, id: Id): (out: seq<Id>)
    ensures forall x :: x in out <==> x in ids && x != id
    ensures Distinct(ids) ==> Distinct(out)
  {
    if ids == [] then [] else
    var rest := Dropping(ids[1..], id);
    assert forall x :: x in ids <==> x == ids[0] || x in ids[1..];
    assert Distinct(ids) ==> ids[0] !in ids[1..];
    if ids[0] == id then rest else [ids[0]] + rest
  }

  /** A session end: a move in progress takes the id and waits anew; one given up on lends its ids. */
  function AfterEnd(v: View, id: Id, reason: Reason, wasOn: bool): View
  {
    match v.move
    case None =>
      var lent := if v.gaveUp.Some? then Dropping(v.gaveUp.value.ended, id) else [];
      var wasOn' := wasOn || (v.gaveUp.Some? && v.gaveUp.value.wasOn);
      View(Some(Fresh(Record(lent + [id], reason, wasOn'))), None)
    case Some(w) =>
      var ended := if id in w.record.ended then w.record.ended else w.record.ended + [id];
      v.(move := Some(Fresh(Record(ended, reason, w.record.wasOn || wasOn))))
  }

  /** A move claimed under an id that did not end. */
  function Claim(v: View, id: Id): (View, Option<Record>)
  {
    if v.move.None? || id in v.move.value.record.ended then (v, None)
    else (v.(move := None), Some(v.move.value.record))
  }

  function ClaimLate(v: View, id: Id): (View, Option<Record>)
  {
    if v.gaveUp.None? || v.move.Some? || id in v.gaveUp.value.ended then (v, None)
    else (v.(gaveUp := None), v.gaveUp)
  }

  /** A main-loop turn under `id`. */
  function AfterTurn(v: View, id: Id): (View, Option<Record>)
  {
    if v.move.Some? then Claim(v, id) else ClaimLate(v, id)
  }

  /** A read by the watch of the move in the slot; no id is a read that failed. */
  function AfterRead(v: View, id: Option<Id>): (View, Outcome)
  {
    if v.move.None? then (v, Gone) else
    var w := v.move.value;
    if id.Some? && id.value !in w.record.ended then (v.(move := None), Settle(w.record)) else
    var waited := w.waitedMs + w.delayMs;
    if waited >= GIVE_UP_MS then (View(None, Some(w.record)), GiveUp(w.record)) else
    var delay := if w.delayMs * 2 < MAX_MS then w.delayMs * 2 else MAX_MS;
    (v.(move := Some(Watch(w.record, waited, delay))), Wait(delay))
  }

  // ----- the slot in place -----

  class Watched {
    var ended: seq<Id>
    var reason: Reason
    var wasOn: bool
    var waitedMs: nat
    var delayMs: nat

    constructor (record: Record)
      ensures Value() == Fresh(record)
    {
      ended, reason, wasOn := record.ended, record.reason, record.wasOn;
      waitedMs, delayMs := 0, FIRST_MS;
    }

    function Value(): Watch
      reads this
    {
      Watch(Record(ended, reason, wasOn), waitedMs, delayMs)
    }
  }

  class MoveSlot {
    var move: Watched?
    var gaveUp: Option<Record>

    constructor ()
      ensures Value() == View(None, None)
    {
      move, gaveUp := null, None;
    }

    function Value(): View
      reads this, move
    {
      View(if move == null then None else Some(move.Value()), gaveUp)
    }

    /** `recordMove`. */
    method RecordMove(endedId: Id, reason: Reason, wasOn: bool)
      modifies this, move
      ensures Value() == AfterEnd(old(Value()), endedId, reason, wasOn)
      ensures old(move) != null ==> move == old(move)
      ensures old(move) == null ==> fresh(move)
    {
      if move == null {
        var g := gaveUp;
        gaveUp := None;
        var ended := if g.Some? then Dropping(g.value.ended, endedId) else [];
        move := new Watched(Record(ended + [endedId], reason, wasOn || (g.Some? && g.value.wasOn)));
        return;
      }
      if endedId !in move.ended { move.ended := move.ended + [endedId]; }
      move.reason := reason;
      move.wasOn := move.wasOn || wasOn;
      move.waitedMs := 0;
      move.delayMs := FIRST_MS;
    }

    /** `adoptMove`. */
    method AdoptMove(record: Record)
      modifies this
      ensures Value() == View(Some(Fresh(record)), old(gaveUp)) && fresh(move)
    {
      move := new Watched(record);
    }

    /** `claimMove`: only the move still in the slot is claimed. */
    method ClaimMove(m: Watched, id: Id) returns (record: Option<Record>)
      modifies this
      ensures old(move) != m ==> record == None && Value() == old(Value()) && move == old(move)
      ensures old(move) == m ==> (Value(), record) == Claim(old(Value()), id)
      ensures m.Value() == old(m.Value()) && (record.None? ==> move == old(move))
    {
      if move != m || id in m.ended { return None; }
      move := null;
      return Some(Record(m.ended, m.reason, m.wasOn));
    }

    /** `claimGaveUp`. */
    method ClaimGaveUp(id: Id) returns (record: Option<Record>)
      modifies this
      ensures (Value(), record) == ClaimLate(old(Value()), id)
    {
      if gaveUp.None? || move != null || id in gaveUp.value.ended { return None; }
      record := gaveUp;
      gaveUp := None;
    }

    /** `readOutcome`: a read in flight for a move no longer in the slot changes nothing. */
    method ReadOutcome(m: Watched, id: Option<Id>) returns (out: Outcome)
      modifies this, m
      ensures old(move) != m ==> out == Gone && Value() == old(Value()) && move == old(move)
      ensures old(move) == m ==> (Value(), out) == AfterRead(old(Value()), id)
      ensures move == old(move) || move == null
    {
      if move != m { return Gone; }
      if id.Some? {
        var record := ClaimMove(m, id.value);
        if record.Some? { return Settle(record.value); }
      }
      m.waitedMs := m.waitedMs + m.delayMs;
      if m.waitedMs >= GIVE_UP_MS {
        move := null;
        gaveUp := Some(Record(m.ended, m.reason, m.wasOn));
        return GiveUp(gaveUp.value);
      }
      m.delayMs := if m.delayMs * 2 < MAX_MS then m.delayMs * 2 else MAX_MS;
      return Wait(m.delayMs);
    }

    /** `settleIfMoved`, once the turn's id is read. */
    method SettleIfMoved(id: Id) returns (record: Option<Record>)
      modifies this
      ensures (Value(), record) == AfterTurn(old(Value()), id)
    {
      if move != null {
        record := ClaimMove(move, id);
      } else {
        record := ClaimGaveUp(id);
      }
    }
  }

  // ----- runs -----

  datatype Ending = Ending(id: Id, reason: Reason, wasOn: bool)

  datatype Event =
    | End(ending: Ending)
    | Read(id: Option<Id>)      // by the watch of the move in the slot
    | Stale                     // by the watch of a move no longer in it
    | Turn(now: Id)

  /** A settle: the id, the record, and what was to be settled -- a move found at the start, and the
      ends since the settle before. */
  datatype Settled = Settled(id: Id, record: Record, found: Option<Record>, ends: seq<Ending>)

  /** A run so far: the slot, the settles, and what is still to be settled. */
  datatype Run = Run(view: View, found: Option<Record>, ends: seq<Ending>, settles: seq<Settled>)

  function Settling(r: Run, v: View, id: Id, record: Record): Run
  {
    Run(v, None, [], r.settles + [Settled(id, record, r.found, r.ends)])
  }

  function Step(r: Run, e: Event): Run
  {
    match e
    case End(n) => r.(view := AfterEnd(r.view, n.id, n.reason, n.wasOn), ends := r.ends + [n])
    case Read(id) =>
      var (v, out) := AfterRead(r.view, id);
      if out.Settle? && id.Some? then Settling(r, v, id.value, out.record) else r.(view := v)
    case Stale => r
    case Turn(id) =>
      var (v, record) := AfterTurn(r.view, id);
      if record.Some? then Settling(r, v, id, record.value) else r.(view := v)
  }

  /** The module's start: empty, or with a move a reload found. */
  function Start(found: Option<Record>): Run
  {
    Run(View(if found.Some? then Some(Fresh(found.value)) else None, None), found, [], [])
  }

  function After(found: Option<Record>, events: seq<Event>): Run
  {
    if events == [] then Start(found)
    else Step(After(found, events[..|events| - 1]), events[|events| - 1])
  }

  function EndsIn(events: seq<Event>): seq<Ending>
  {
    if events == [] then [] else
    var last := events[|events| - 1];
    EndsIn(events[..|events| - 1]) + (if last.End? then [last.ending] else [])
  }

  function SettledEnds(settles: seq<Settled>): seq<Ending>
  {
    if settles == [] then [] else SettledEnds(settles[..|settles| - 1]) + settles[|settles| - 1].ends
  }

  // ----- what a record must say -----

  function Known(found: Option<Record>): seq<Id> { if found.Some? then found.value.ended else [] }

  /** The record holds every id that ended, and none else, each once; whether any of them was on; and
      why the last one ended. */
  ghost predicate Sums(record: Record, found: Option<Record>, ends: seq<Ending>)
  {
    && (found.Some? || ends != [])
    && (forall id :: id in record.ended <==> id in Known(found) || exists n | n in ends :: n.id == id)
    && (Distinct(Known(found)) ==> Distinct(record.ended))
    && (record.wasOn <==> (found.Some? && found.value.wasOn) || exists n | n in ends :: n.wasOn)
    && record.reason == if ends == [] then found.value.reason else ends[|ends| - 1].reason
  }

  ghost predicate Carried(v: View, found: Option<Record>, ends: seq<Ending>)
  {
    if v.move.Some? then v.gaveUp.None? && Sums(v.move.value.record, found, ends)
    else if v.gaveUp.Some? then Sums(v.gaveUp.value, found, ends)
    else found.None? && ends == []
  }

  ghost predicate Fair(s: Settled) { Sums(s.record, s.found, s.ends) && s.id !in s.record.ended }

  ghost predicate Sound(r: Run)
  {
    Carried(r.view, r.found, r.ends) && forall i | 0 <= i < |r.settles| :: Fair(r.settles[i])
  }

  lemma {:induction false} DistinctOneMore(ids: seq<Id>, id: Id)
    ensures Distinct(ids) && id !in ids ==> Distinct(ids + [id])
  {
    if Distinct(ids) && id !in ids {
      DistinctConcat(ids, [id]);
    }
  }

  lemma {:induction false} SumsMore(record: Record, found: Option<Record>, ends: seq<Ending>, n: Ending, after: Record)
    requires Sums(record, found, ends) || (found.None? && ends == [] && record.ended == [] && !record.wasOn)
    requires after.ended == Dropping(record.ended, n.id) + [n.id]
          || after.ended == (if n.id in record.ended then record.ended else record.ended + [n.id])
    requires after.reason == n.reason && after.wasOn == (record.wasOn || n.wasOn)
    ensures Sums(after, found, ends + [n])
  {
    var all := ends + [n];
    assert all[|all| - 1] == n && n in all;
    forall m | m in ends ensures m in all {}
    DistinctOneMore(Dropping(record.ended, n.id), n.id);
    DistinctOneMore(record.ended, n.id);
    assert forall m | m in all :: m in ends || m == n;
  }

  lemma {:induction false} EndCarries(v: View, found: Option<Record>, ends: seq<Ending>, n: Ending)
    requires Carried(v, found, ends)
    ensures Carried(AfterEnd(v, n.id, n.reason, n.wasOn), found, ends + [n])
  {
    var after := AfterEnd(v, n.id, n.reason, n.wasOn).move.value.record;
    if v.move.Some? {
      SumsMore(v.move.value.record, found, ends, n, after);
    } else if v.gaveUp.Some? {
      SumsMore(v.gaveUp.value, found, ends, n, after);
    } else {
      SumsMore(Record([], n.reason, false), found, ends, n, after);
    }
  }

  lemma {:induction false} StepSound(r: Run, e: Event)
    requires Sound(r)
    ensures Sound(Step(r, e))
  {
    if e.End? {
      EndCarries(r.view, r.found, r.ends, e.ending);
    }
  }

  /** In every run each settle takes exactly what ended since the one before -- across a give-up too --
      under an id that is not among it, and what is not settled yet is still held. */
  lemma {:induction false} AlwaysSound(found: Option<Record>, events: seq<Event>)
    ensures Sound(After(found, events))
    decreases |events|
  {
    if events != [] {
      AlwaysSound(found, events[..|events| - 1]);
      StepSound(After(found, events[..|events| - 1]), events[|events| - 1]);
    } else if found.Some? {
      assert Sums(found.value, found, []);
    }
  }

  lemma {:induction false} SettledEndsSnoc(settles: seq<Settled>, s: Settled)
    ensures SettledEnds(settles + [s]) == SettledEnds(settles) + s.ends
  {
    assert (settles + [s])[..|settles|] == settles;
  }

  /** What a run has had end: what it settled, and what it holds. */
  function Taken(r: Run): seq<Ending> { SettledEnds(r.settles) + r.ends }

  lemma {:induction false} SettlingTakes(r: Run, v: View, id: Id, record: Record)
    ensures Taken(Settling(r, v, id, record)) == Taken(r)
  {
    SettledEndsSnoc(r.settles, Settled(id, record, r.found, r.ends));
  }

  lemma {:induction false} EndTakes(r: Run, n: Ending, after: Run)
    requires after.settles == r.settles && after.ends == r.ends + [n]
    ensures Taken(after) == Taken(r) + [n]
  {
  }

  lemma {:induction false} StepTakes(r: Run, e: Event)
    ensures Taken(Step(r, e)) == Taken(r) + (if e.End? then [e.ending] else [])
  {
    match e
    case End(n) => EndTakes(r, n, Step(r, e));
    case Read(id) =>
      var (v, out) := AfterRead(r.view, id);
      if out.Settle? && id.Some? { SettlingTakes(r, v, id.value, out.record); }
    case Stale =>
    case Turn(id) =>
      var (v, record) := AfterTurn(r.view, id);
      if record.Some? { SettlingTakes(r, v, id, record.value); }
  }

  /** Every end of a run is settled once, in order, or still to be settled: none is lost, none twice. */
  lemma {:induction false} EndsConserved(found: Option<Record>, events: seq<Event>)
    ensures var r := After(found, events); SettledEnds(r.settles) + r.ends == EndsIn(events)
    decreases |events|
  {
    if events != [] {
      EndsConserved(found, events[..|events| - 1]);
      StepTakes(After(found, events[..|events| - 1]), events[|events| - 1]);
    }
  }

  predicate Ended(ends: seq<Ending>, id: Id) { exists n | n in ends :: n.id == id }

  lemma {:induction false} EndedBySome(settles: seq<Settled>, id: Id)
    ensures Ended(SettledEnds(settles), id) <==> exists k | 0 <= k < |settles| :: Ended(settles[k].ends, id)
  {
    if settles != [] {
      var front, last := settles[..|settles| - 1], settles[|settles| - 1];
      EndedBySome(front, id);
      EndedEither(SettledEnds(front), last.ends, id);
      assert forall k | 0 <= k < |front| :: front[k] == settles[k];
    }
  }

  lemma {:induction false} EndedEither(a: seq<Ending>, b: seq<Ending>, id: Id)
    ensures Ended(a + b, id) <==> Ended(a, id) || Ended(b, id)
  {
    assert forall n | n in a :: n in a + b;
    assert forall n | n in b :: n in a + b;
  }

  /** Something has ended, or was found, that no settle has taken yet. */
  predicate Pending(r: Run) { r.found.Some? || r.ends != [] }

  predicate AmongEnded(r: Run, id: Id) { id in Known(r.found) || Ended(r.ends, id) }

  /** The event tells the slot the id that goes on: a turn with anything to settle, or a read by the watch. */
  predicate Tells(r: Run, e: Event, id: Id)
  {
    (e == Turn(id) && Pending(r)) || (e == Read(Some(id)) && r.view.move.Some?)
  }

  /** The run settles all that was pending under `id`, and its slot is empty. */
  ghost predicate SettledUnder(r: Run, after: Run, id: Id)
  {
    && |after.settles| == |r.settles| + 1 && after.settles[..|r.settles|] == r.settles
    && var s := after.settles[|r.settles|];
    && s.id == id && s.found == r.found && s.ends == r.ends && Sums(s.record, r.found, r.ends)
    && after.view == View(None, None) && !Pending(after)
  }

  lemma {:induction false} HeldIds(r: Run, record: Record, id: Id)
    requires Sums(record, r.found, r.ends)
    ensures id in record.ended <==> AmongEnded(r, id)
  {
  }

  /** What the slot holds of what is pending. */
  function Held(v: View): Option<Record> { if v.move.Some? then Some(v.move.value.record) else v.gaveUp }

  lemma {:induction false} HoldsPending(r: Run)
    requires Sound(r)
    ensures Pending(r) <==> Held(r.view).Some?
    ensures r.view.move.Some? ==> r.view.gaveUp.None?
    ensures Held(r.view).Some? ==> Sums(Held(r.view).value, r.found, r.ends)
  {
  }

  /** A step settles exactly when it tells the slot an id that did not end: a turn at any time, also after the
      watch gave up, and a read while the watch goes on. Then it settles all that is pending under that id and
      empties the slot; any other step settles nothing and drops nothing. */
  lemma {:induction false} SettlesIff(found: Option<Record>, events: seq<Event>, e: Event)
    ensures var r, after := After(found, events), After(found, events + [e]);
            && (forall id | Tells(r, e, id) && !AmongEnded(r, id) :: SettledUnder(r, after, id))
            && ((forall id :: !(Tells(r, e, id) && !AmongEnded(r, id))) ==>
                  && after.settles == r.settles && after.found == r.found
                  && after.ends == r.ends + (if e.End? then [e.ending] else []))
  {
    var r := After(found, events);
    AlwaysSound(found, events);
    assert (events + [e])[..|events|] == events;
    HoldsPending(r);
    match e
    case Turn(id) => TurnSettles(r, id);
    case Read(id) => ReadSettles(r, id);
    case End(_) =>
    case Stale =>
  }

  lemma {:induction false} TurnSettles(r: Run, id: Id)
    requires Sound(r)
    ensures if Pending(r) && !AmongEnded(r, id) then SettledUnder(r, Step(r, Turn(id)), id)
            else Step(r, Turn(id)) == r
  {
    HoldsPending(r);
    if Pending(r) { HeldIds(r, Held(r.view).value, id); }
  }

  lemma {:induction false} ReadSettles(r: Run, id: Option<Id>)
    requires Sound(r)
    ensures if id.Some? && r.view.move.Some? && !AmongEnded(r, id.value)
            then SettledUnder(r, Step(r, Read(id)), id.value)
            else Step(r, Read(id)) == r.(view := Step(r, Read(id)).view)
  {
    HoldsPending(r);
    if r.view.move.Some? && id.Some? { HeldIds(r, Held(r.view).value, id.value); }
  }

  /** Over a whole run an id that ended by then is settled exactly when an earlier settle took its end: it
      ended, the session moved on and was settled, and a later move came back to it. */
  lemma {:induction false} SettledAgainIff(found: Option<Record>, events: seq<Event>, i: nat)
    requires i < |After(found, events).settles|
    ensures var settles := After(found, events).settles;
            Ended(SettledEnds(settles[..i + 1]), settles[i].id)
            <==> exists k | 0 <= k < i :: Ended(settles[k].ends, settles[i].id)
  {
    var settles := After(found, events).settles;
    var s, before := settles[i], settles[..i];
    AlwaysSound(found, events);
    assert Fair(s);
    assert settles[..i + 1] == before + [s];
    SettledEndsSnoc(before, s);
    EndedEither(SettledEnds(before), s.ends, s.id);
    EndedBySome(before, s.id);
    assert forall k | 0 <= k < i :: before[k] == settles[k];
  }

  /** It happens: "a" ends, "b" is settled and ends, and "a" is settled. */
  lemma {:induction false} ResumedLater()
    ensures var a, b := Ending("a", Clear, true), Ending("b", Resume, true);
            var r := After(None, [End(a), Turn("b"), End(b), Turn("a")]);
            |r.settles| == 2 && r.settles[1].id == a.id && a in r.settles[0].ends
  {
    var a, b := Ending("a", Clear, true), Ending("b", Resume, true);
    var e1, e2 := [End(a)], [End(a), Turn("b")];
    var e3, e4 := e2 + [End(b)], [End(a), Turn("b"), End(b), Turn("a")];
    assert e1[..0] == [] && e2[..1] == e1 && e3[..2] == e2 && e4[..3] == e3;
    assert [] + ["a"] == ["a"] && [] + ["b"] == ["b"];
    var v1 := View(Some(Fresh(Record(["a"], Clear, true))), None);
    assert AfterEnd(View(None, None), "a", Clear, true) == v1;
    assert After(None, e1) == Run(v1, None, [] + [a], []);
    assert AfterTurn(v1, "b") == (View(None, None), Some(Record(["a"], Clear, true)));
    var s1 := Settled("b", Record(["a"], Clear, true), None, [] + [a]);
    assert After(None, e2) == Run(View(None, None), None, [], [] + [s1]);
    var v3 := View(Some(Fresh(Record(["b"], Resume, true))), None);
    assert AfterEnd(View(None, None), "b", Resume, true) == v3;
    assert After(None, e3) == Run(v3, None, [] + [b], [] + [s1]);
    assert AfterTurn(v3, "a") == (View(None, None), Some(Record(["b"], Resume, true)));
  }

  // ----- giving up -----

  /** Nothing in these events settles a move under `ended`: each read fails or names an id that ended,
      and so does each turn. */
  predicate Quiet(events: seq<Event>, ended: seq<Id>)
  {
    forall i | 0 <= i < |events| ::
      match events[i]
      case End(_) => false
      case Read(id) => id.None? || id.value in ended
      case Stale => true
      case Turn(id) => id in ended
  }

  /** The reads among them. */
  function Reads(events: seq<Event>): nat
  {
    if events == [] then 0 else
    Reads(events[..|events| - 1]) + (if events[|events| - 1].Read? then 1 else 0)
  }

  function RunOn(r: Run, events: seq<Event>): Run
  {
    if events == [] then r else Step(RunOn(r, events[..|events| - 1]), events[|events| - 1])
  }

  /** What the watch has waited after `n` reads: 250, 500, 1000 and then 2000 ms at a time. */
  function Waited(n: nat): nat
  {
    if n == 0 then 0 else if n == 1 then 250 else if n == 2 then 750 else 2_000 * n - 4_250
  }

  function NextDelay(n: nat): nat { if n == 0 then 250 else if n == 1 then 500 else if n == 2 then 1_000 else 2_000 }

  /** The watch after `n` reads of an id that ended. */
  function Waiting(record: Record, n: nat): View
  {
    if n < 153 then View(Some(Watch(record, Waited(n), NextDelay(n))), None) else View(None, Some(record))
  }

  /** A read that settles nothing waits twice as long, up to two seconds, or gives up with the record. */
  lemma {:induction false} OneRead(record: Record, n: nat, id: Option<Id>)
    requires id.None? || id.value in record.ended
    ensures AfterRead(Waiting(record, n), id).0 == Waiting(record, n + 1)
    ensures AfterRead(Waiting(record, n), id).1
         == if n < 152 then Wait(NextDelay(n + 1)) else if n == 152 then GiveUp(record) else Gone
  {
  }

  /** A watch no read or turn settles waits on through 152 reads since its waits last started, and gives
      up on the 153rd. */
  lemma {:induction false} GivesUpOn153rd(r: Run, record: Record, events: seq<Event>)
    requires r.view == View(Some(Fresh(record)), None) && Quiet(events, record.ended)
    ensures RunOn(r, events) == r.(view := Waiting(record, Reads(events)))
    decreases |events|
  {
    if events == [] {
      assert Fresh(record) == Watch(record, Waited(0), NextDelay(0));
    } else {
      var before, e := events[..|events| - 1], events[|events| - 1];
      GivesUpOn153rd(r, record, before);
      if e.Read? { OneRead(record, Reads(before), e.id); }
    }
  }

  /** Each end of a session starts the waits again, whatever the watch had waited. */
  lemma {:induction false} EndRestarts(r: Run, n: Ending)
    requires Sound(r)
    ensures Step(r, End(n)).view.gaveUp.None?
    ensures Step(r, End(n)).view.move.Some? && n.id in Step(r, End(n)).view.move.value.record.ended
    ensures Step(r, End(n)).view.move.value == Fresh(Step(r, End(n)).view.move.value.record)
  {
  }
}
