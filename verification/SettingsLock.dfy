/** The settings lock and the edits made under it (`writer.rs`), as a protocol of atomic steps.

    Any number of processes share one target file and one lock path beside it. A step is one system
    call; steps of different processes interleave freely and a process may die between any two of its
    own. An inode in use by an open handle is not handed out again. */
module SettingsLock {
  import opened Basics

  type Pid = nat
  type Inode = nat

  datatype Platform = Unix | Windows | Elsewhere

  /** How a process treats the lock file: `acquire`, `acquire_kept`, or an older binary that
      opens and locks it without looking at the path again and never deletes it. */
  datatype Locker = Removing | Kept | Plain

  /** `plainShares`: on Windows an older binary opens the lock file so that it can be deleted under it.
      `outsiders`: a writer that takes no lock may step in. */
  datatype Config = Config(platform: Platform, lockers: map<Pid, Locker>, plainShares: bool, outsiders: bool)

  /** What an edit makes of the text it read. */
  datatype Verdict = Refused | Unchanged | Changed(text: string)

  datatype Op = Edit(f: string -> Verdict) | Create(body: string)

  datatype Stage =
    | Waiting                              // handle open, OS lock not granted
    | Granted                              // OS lock granted, path not compared yet
    | Entered                              // past `take`
    | Loaded(text: string)                 // file read
    | Writing(body: string, tmp: string)   // temporary file partly written
    | Done                                 // call finished, lock still held
    | Removed                              // Unix release: path removed, handle still open

  datatype Proc = Idle | Busy(ino: Inode, op: Op, stage: Stage) | Closed | Dead

  /** What a call that ran to its end answers: an error, or whether it wrote the file. */
  datatype Answer = Error | Left | Wrote

  /** One finished call: the index of the `take` it ran under, its process, its operation, its answer. */
  datatype Commit = Commit(take: nat, pid: Pid, op: Op, answer: Answer)

  datatype State = State(
    entry: Option<Inode>,        // what the lock path names
    owner: map<Inode, Pid>,      // the OS lock of each inode
    procs: map<Pid, Proc>,
    file: Option<string>,        // the target file
    takes: seq<Pid>,             // every entry past `take`, in order
    log: seq<Commit>)            // every finished call, in order

  datatype Event =
    | Open(p: Pid, op: Op, ino: Inode)
    | Lock(p: Pid)
    | GiveUp(p: Pid)             // `try_lock` refused, or an error before the lock
    | Enter(p: Pid)
    | Retry(p: Pid)              // the path names another file: start over
    | Load(p: Pid)
    | Decide(p: Pid)
    | Prepare(p: Pid)            // `create_new` starts its temporary file
    | Append(p: Pid, chunk: string)
    | Abort(p: Pid)              // an I/O error on the way
    | Rename(p: Pid)
    | Link(p: Pid)
    | Unlink(p: Pid, done: bool)
    | Close(p: Pid)
    | Delete(p: Pid, done: bool)
    | Crash(p: Pid)
    | Outside(text: Option<string>)   // a writer that takes no lock

  // ----- reading the state -----

  predicate At(s: State, p: Pid) { p in s.procs && s.procs[p].Busy? }

  predicate HoldsLock(s: State, p: Pid) { At(s, p) && !s.procs[p].stage.Waiting? }

  /** Past `take` and not yet releasing. */
  predicate Inside(s: State, p: Pid)
  {
    At(s, p) && !(s.procs[p].stage in {Waiting, Granted, Removed})
  }

  ghost predicate AtMostOneInside(s: State)
  {
    forall p, q :: Inside(s, p) && Inside(s, q) ==> p == q
  }

  function TextOf(file: Option<string>): string { if file.Some? then file.value else "" }

  predicate Checks(c: Config, p: Pid) { c.platform.Unix? && p in c.lockers && !c.lockers[p].Plain? }

  /** A handle that lets the file be deleted under it: only an older binary's plain open may. */
  predicate SharesDelete(c: Config, p: Pid) { c.plainShares && p in c.lockers && c.lockers[p].Plain? }

  predicate Removes(c: Config, p: Pid) { p in c.lockers && c.lockers[p].Removing? }

  // ----- steps -----

  predicate Enabled(c: Config, s: State, e: Event)
  {
    match e
    case Outside(_) => c.outsiders
    case Open(p, _, ino) =>
      && p in s.procs && s.procs[p].Idle?
      && (if s.entry.Some? then s.entry.value == ino
          else forall q | q in s.procs :: At(s, q) ==> s.procs[q].ino != ino)
    case Lock(p) => At(s, p) && s.procs[p].stage.Waiting? && s.procs[p].ino !in s.owner
    case GiveUp(p) => At(s, p) && s.procs[p].stage.Waiting?
    case Enter(p) =>
      At(s, p) && s.procs[p].stage.Granted? && (Checks(c, p) ==> s.entry == Some(s.procs[p].ino))
    case Retry(p) =>
      At(s, p) && s.procs[p].stage.Granted? && Checks(c, p) && s.entry != Some(s.procs[p].ino)
    case Load(p) => At(s, p) && s.procs[p].stage.Entered? && s.procs[p].op.Edit?
    case Decide(p) => At(s, p) && s.procs[p].stage.Loaded? && s.procs[p].op.Edit?
    case Prepare(p) => At(s, p) && s.procs[p].stage.Entered? && s.procs[p].op.Create?
    case Append(p, chunk) =>
      At(s, p) && s.procs[p].stage.Writing? && s.procs[p].stage.tmp + chunk <= s.procs[p].stage.body
    case Abort(p) => At(s, p) && (s.procs[p].stage.Entered? || s.procs[p].stage.Loaded? || s.procs[p].stage.Writing?)
    case Rename(p) =>
      At(s, p) && s.procs[p].op.Edit? && s.procs[p].stage.Writing? && s.procs[p].stage.tmp == s.procs[p].stage.body
    case Link(p) =>
      At(s, p) && s.procs[p].op.Create? && s.procs[p].stage.Writing? && s.procs[p].stage.tmp == s.procs[p].stage.body
    case Unlink(p, _) => At(s, p) && s.procs[p].stage.Done? && c.platform.Unix? && Removes(c, p)
    case Close(p) =>
      At(s, p) && (s.procs[p].stage.Removed? || (s.procs[p].stage.Done? && !(c.platform.Unix? && Removes(c, p))))
    case Delete(p, done) =>
      && p in s.procs && s.procs[p].Closed?
      && (done && s.entry.Some? ==>
            forall q | q in s.procs :: At(s, q) && s.procs[q].ino == s.entry.value ==> SharesDelete(c, q))
    case Crash(p) => p in s.procs && !s.procs[p].Dead?
  }

  function Go(s: State, p: Pid, stage: Stage): State
    requires At(s, p)
  {
    s.(procs := s.procs[p := s.procs[p].(stage := stage)])
  }

  /** `p` drops its handle, and with it the OS lock if it had it, and continues as `next`. */
  function Drop(s: State, p: Pid, next: Proc): State
    requires p in s.procs
  {
    var owner := if HoldsLock(s, p) then s.owner - {s.procs[p].ino} else s.owner;
    s.(owner := owner, procs := s.procs[p := next])
  }

  /** The call of `p` is over: recorded under the `take` it runs under. */
  function Finish(s: State, p: Pid, answer: Answer): State
    requires At(s, p)
  {
    var take := if |s.takes| == 0 then 0 else |s.takes| - 1;
    Go(s, p, Done).(log := s.log + [Commit(take, p, s.procs[p].op, answer)])
  }

  function Next(c: Config, s: State, e: Event): State
    requires Enabled(c, s, e)
  {
    match e
    case Outside(text) => s.(file := text)
    case Open(p, op, ino) => s.(entry := Some(ino), procs := s.procs[p := Busy(ino, op, Waiting)])
    case Lock(p) => Go(s, p, Granted).(owner := s.owner[s.procs[p].ino := p])
    case GiveUp(p) => Drop(s, p, Idle)
    case Enter(p) => Go(s, p, Entered).(takes := s.takes + [p])
    case Retry(p) => Drop(s, p, Idle)
    case Load(p) => Go(s, p, Loaded(TextOf(s.file)))
    case Decide(p) =>
      (match s.procs[p].op.f(s.procs[p].stage.text)
       case Changed(body) => Go(s, p, Writing(body, ""))
       case Unchanged => Finish(s, p, Left)
       case Refused => Finish(s, p, Error))
    case Prepare(p) => Go(s, p, Writing(s.procs[p].op.body, ""))
    case Append(p, chunk) => Go(s, p, s.procs[p].stage.(tmp := s.procs[p].stage.tmp + chunk))
    case Abort(p) => Go(s, p, Done)
    case Rename(p) => Finish(s, p, Wrote).(file := Some(s.procs[p].stage.tmp))
    case Link(p) =>
      if s.file.Some? then Finish(s, p, Left) else Finish(s, p, Wrote).(file := Some(s.procs[p].stage.tmp))
    case Unlink(p, done) => Go(s, p, Removed).(entry := if done then None else s.entry)
    case Close(p) => Drop(s, p, if c.platform.Windows? && Removes(c, p) then Closed else Idle)
    case Delete(p, done) => s.(entry := if done then None else s.entry, procs := s.procs[p := Idle])
    case Crash(p) => Drop(s, p, Dead)
  }

  function Init(c: Config, file: Option<string>): State
  {
    State(None, map[], map p | p in c.lockers :: Idle, file, [], [])
  }

  /** `run` is the states a sequence of events passes through, from the start. */
  ghost predicate IsRun(c: Config, file: Option<string>, events: seq<Event>, run: seq<State>)
  {
    && |run| == |events| + 1
    && run[0] == Init(c, file)
    && forall i {:trigger events[i]} | 0 <= i < |events| ::
         Enabled(c, run[i], events[i]) && run[i + 1] == Next(c, run[i], events[i])
  }

  // ----- mutual exclusion -----

  /** A process that removes the lock file shares it with one that does not look at the path again, and
      the removal goes through while that one has the file open. */
  predicate Mixed(c: Config)
  {
    && (c.platform.Unix? || (c.platform.Windows? && c.plainShares))
    && (exists p :: p in c.lockers && c.lockers[p].Removing?)
    && (exists p :: p in c.lockers && c.lockers[p].Plain?)
  }

  /** No handle can be left on a file the path stopped naming. */
  predicate PathStays(c: Config)
  {
    !c.platform.Unix? || forall p | p in c.lockers :: !c.lockers[p].Removing?
  }

  ghost predicate ProcInv(c: Config, s: State, p: Pid)
  {
    && (HoldsLock(s, p) ==> s.procs[p].ino in s.owner && s.owner[s.procs[p].ino] == p)
    && (p in s.procs && s.procs[p].Closed? ==> c.platform.Windows? && Removes(c, p))
    && (At(s, p) && s.procs[p].stage.Removed? ==> c.platform.Unix? && Removes(c, p))
    && (Inside(s, p) ==> s.entry == Some(s.procs[p].ino))
    && (PathStays(c) && At(s, p) ==> s.entry == Some(s.procs[p].ino))
  }

  ghost predicate OwnerInv(s: State, i: Inode)
  {
    i in s.owner ==> HoldsLock(s, s.owner[i]) && s.procs[s.owner[i]].ino == i
  }

  ghost predicate LockInv(c: Config, s: State)
  {
    && s.procs.Keys == c.lockers.Keys
    && (forall p :: ProcInv(c, s, p))
    && (forall i :: OwnerInv(s, i))
  }

  lemma {:induction false} LockInvExcludes(c: Config, s: State)
    requires LockInv(c, s)
    ensures AtMostOneInside(s)
  {
    forall p, q | Inside(s, p) && Inside(s, q)
      ensures p == q
    {
      assert ProcInv(c, s, p) && ProcInv(c, s, q);
    }
  }

  /** A change to what the path names spoils no holder: nobody is inside but the process that made
      it, and where the path is relied on, no handle is open on what it named. */
  lemma {:induction false} EntryChange(c: Config, s: State, t: State, p: Pid)
    requires LockInv(c, s) && p in s.procs
    requires t.owner == s.owner && t.procs.Keys == s.procs.Keys
    requires forall q | q in s.procs && q != p :: t.procs[q] == s.procs[q]
    requires forall q | q != p :: !Inside(s, q)
    requires PathStays(c) ==> forall q | q != p :: !At(s, q)
    requires HoldsLock(s, p) <==> HoldsLock(t, p)
    requires HoldsLock(s, p) ==> t.procs[p].ino == s.procs[p].ino
    requires ProcInv(c, t, p)
    ensures LockInv(c, t)
  {
    forall q ensures ProcInv(c, t, q) {
      assert ProcInv(c, s, q);
      if q != p && q in s.procs {
        assert t.procs[q] == s.procs[q] && !Inside(s, q);
        assert PathStays(c) ==> !At(s, q);
      }
    }
    forall i ensures OwnerInv(t, i) {
      assert OwnerInv(s, i);
    }
  }

  /** One process moves on with its handle, its lock and the path as they were. */
  lemma {:induction false} Moves(c: Config, s: State, t: State, p: Pid)
    requires LockInv(c, s) && At(s, p) && At(t, p)
    requires t.owner == s.owner && t.entry == s.entry && t.procs == s.procs[p := t.procs[p]]
    requires t.procs[p].ino == s.procs[p].ino
    requires HoldsLock(s, p) && HoldsLock(t, p) && !t.procs[p].stage.Removed?
    requires Inside(t, p) ==> s.entry == Some(s.procs[p].ino)
    ensures LockInv(c, t)
  {
    forall q ensures ProcInv(c, t, q) {
      assert ProcInv(c, s, q);
    }
    forall i ensures OwnerInv(t, i) {
      assert OwnerInv(s, i);
    }
  }

  lemma {:induction false} Drops(c: Config, s: State, p: Pid, next: Proc)
    requires LockInv(c, s) && p in s.procs && !next.Busy?
    requires next.Closed? ==> c.platform.Windows? && Removes(c, p)
    ensures LockInv(c, Drop(s, p, next))
  {
    var t := Drop(s, p, next);
    assert ProcInv(c, s, p);
    forall q ensures ProcInv(c, t, q) {
      assert ProcInv(c, s, q);
    }
    forall i ensures OwnerInv(t, i) {
      assert OwnerInv(s, i);
    }
  }

  lemma {:induction false} Opens(c: Config, s: State, e: Event)
    requires LockInv(c, s) && e.Open? && Enabled(c, s, e)
    ensures LockInv(c, Next(c, s, e))
  {
    var t := Next(c, s, e);
    forall q ensures ProcInv(c, t, q) {
      assert ProcInv(c, s, q);
    }
    forall i ensures OwnerInv(t, i) {
      assert OwnerInv(s, i);
    }
  }

  lemma {:induction false} Locks(c: Config, s: State, e: Event)
    requires LockInv(c, s) && e.Lock? && Enabled(c, s, e)
    ensures LockInv(c, Next(c, s, e))
  {
    var t := Next(c, s, e);
    forall q ensures ProcInv(c, t, q) {
      assert ProcInv(c, s, q);
    }
    forall i ensures OwnerInv(t, i) {
      assert OwnerInv(s, i);
    }
  }

  lemma {:induction false} Deletes(c: Config, s: State, e: Event)
    requires !Mixed(c) && LockInv(c, s) && e.Delete? && Enabled(c, s, e)
    ensures LockInv(c, Next(c, s, e))
  {
    var t := Next(c, s, e);
    assert ProcInv(c, s, e.p);
    if e.done && s.entry.Some? {
      assert forall q :: ProcInv(c, s, q);
      assert forall q | q in c.lockers :: !SharesDelete(c, q);
      forall q ensures !At(s, q) {
        assert ProcInv(c, s, q);
      }
      EntryChange(c, s, t, e.p);
    } else {
      Drops(c, s, e.p, Idle);
    }
  }

  lemma {:induction false} OutsideKeeps(c: Config, s: State, e: Event)
    requires LockInv(c, s) && e.Outside? && Enabled(c, s, e)
    ensures LockInv(c, Next(c, s, e))
  {
    var t := Next(c, s, e);
    assert forall q :: ProcInv(c, s, q) ==> ProcInv(c, t, q);
    assert forall i :: OwnerInv(s, i) ==> OwnerInv(t, i);
  }

  lemma {:induction false} Unlinks(c: Config, s: State, e: Event)
    requires LockInv(c, s) && e.Unlink? && Enabled(c, s, e)
    ensures LockInv(c, Next(c, s, e))
  {
    LockInvExcludes(c, s);
    assert ProcInv(c, s, e.p) && Inside(s, e.p) && !PathStays(c);
    assert forall q | q != e.p :: !Inside(s, q);
    EntryChange(c, s, Next(c, s, e), e.p);
  }

  /** Past `take`, up to the end of the call. */
  predicate IsWork(e: Event) { e.Load? || e.Decide? || e.Prepare? || e.Append? || e.Abort? || e.Rename? || e.Link? }

  lemma {:induction false} Works(c: Config, s: State, e: Event)
    requires LockInv(c, s) && IsWork(e) && Enabled(c, s, e)
    ensures LockInv(c, Next(c, s, e))
  {
    var t := Next(c, s, e);
    assert ProcInv(c, s, e.p);
    assert t.procs == s.procs[e.p := t.procs[e.p]];
    Moves(c, s, t, e.p);
  }

  /** The path names the file locked: it was compared, or no remover is about. */
  lemma {:induction false} Enters(c: Config, s: State, e: Event)
    requires !Mixed(c) && LockInv(c, s) && e.Enter? && Enabled(c, s, e)
    ensures LockInv(c, Next(c, s, e))
  {
    assert ProcInv(c, s, e.p);
    Moves(c, s, Next(c, s, e), e.p);
  }

  /** What every step keeps, unless a remover and an unchecking locker are mixed. */
  lemma {:induction false} LockInvStep(c: Config, s: State, e: Event)
    requires !Mixed(c) && LockInv(c, s) && Enabled(c, s, e)
    ensures LockInv(c, Next(c, s, e))
  {
    match e
    case Outside(_) => OutsideKeeps(c, s, e);
    case Open(_, _, _) => Opens(c, s, e);
    case Lock(_) => Locks(c, s, e);
    case GiveUp(p) => Drops(c, s, p, Idle);
    case Retry(p) => Drops(c, s, p, Idle);
    case Close(p) => Drops(c, s, p, if c.platform.Windows? && Removes(c, p) then Closed else Idle);
    case Crash(p) => Drops(c, s, p, Dead);
    case Unlink(_, _) => Unlinks(c, s, e);
    case Delete(_, _) => Deletes(c, s, e);
    case Enter(_) => Enters(c, s, e);
    case _ => Works(c, s, e);
  }

  // ----- runs -----

  lemma {:induction false} RunKeepsLock(c: Config, file: Option<string>, events: seq<Event>, run: seq<State>, n: nat)
    requires !Mixed(c) && IsRun(c, file, events, run) && n < |run|
    ensures LockInv(c, run[n])
  {
    if n > 0 {
      RunKeepsLock(c, file, events, run, n - 1);
      LockInvStep(c, run[n - 1], events[n - 1]);
    }
  }

  ghost predicate AlwaysExclusive(c: Config)
  {
    forall file, events, run | IsRun(c, file, events, run) :: AtMostOneInside(run[|run| - 1])
  }

  /** In every interleaving, crashes included, at most one process is past `take` and not releasing. */
  lemma {:induction false} MutualExclusion(c: Config)
    requires !Mixed(c)
    ensures AlwaysExclusive(c)
  {
    forall file, events, run | IsRun(c, file, events, run)
      ensures AtMostOneInside(run[|run| - 1])
    {
      RunKeepsLock(c, file, events, run, |run| - 1);
      LockInvExcludes(c, run[|run| - 1]);
    }
  }

  /** The steps that break a mixed lock: the older binary `q` waits on a file the remover `r` takes off
      the path -- while it holds the lock on Unix, once it has closed its handle on Windows -- and the
      remover comes back to a new one. */
  function CollisionEvent(c: Config, r: Pid, q: Pid, i: nat): Event
  {
    var op := Create("");
    if i == 0 then Open(r, op, 0)
    else if i == 1 then Lock(r)
    else if i == 2 then Enter(r)
    else if i == 3 then (if c.platform.Unix? then Open(q, op, 0) else Abort(r))
    else if i == 4 then (if c.platform.Unix? then Abort(r) else Close(r))
    else if i == 5 then (if c.platform.Unix? then Unlink(r, true) else Open(q, op, 0))
    else if i == 6 then (if c.platform.Unix? then Close(r) else Delete(r, true))
    else if i == 7 then Lock(q)
    else if i == 8 then Enter(q)
    else if i == 9 then Open(r, op, 1)
    else if i == 10 then Lock(r)
    else Enter(r)
  }

  /** The remover and the older binary as given, everyone else idle. */
  function Scene(c: Config, r: Pid, q: Pid, remover: Proc, plain: Proc,
                 entry: Option<Inode>, owner: map<Inode, Pid>, takes: seq<Pid>): State
  {
    State(entry, owner, Init(c, None).procs[r := remover][q := plain], None, takes, [])
  }

  function CollisionState(c: Config, r: Pid, q: Pid, i: nat): State
  {
    var op, unix := Create(""), c.platform.Unix?;
    var waits, done, gone := Busy(0, op, Waiting), Busy(0, op, Done), Busy(0, op, Removed);
    if i == 0 then Scene(c, r, q, Idle, Idle, None, map[], [])
    else if i == 1 then Scene(c, r, q, waits, Idle, Some(0), map[], [])
    else if i == 2 then Scene(c, r, q, Busy(0, op, Granted), Idle, Some(0), map[0 := r], [])
    else if i == 3 then Scene(c, r, q, Busy(0, op, Entered), Idle, Some(0), map[0 := r], [r])
    else if i == 4 then
      Scene(c, r, q, if unix then Busy(0, op, Entered) else done, if unix then waits else Idle, Some(0),
            map[0 := r], [r])
    else if i == 5 then
      Scene(c, r, q, if unix then done else Closed, if unix then waits else Idle, Some(0),
            if unix then map[0 := r] else map[], [r])
    else if i == 6 then
      Scene(c, r, q, if unix then gone else Closed, waits, if unix then None else Some(0),
            if unix then map[0 := r] else map[], [r])
    else if i == 7 then Scene(c, r, q, Idle, waits, None, map[], [r])
    else if i == 8 then Scene(c, r, q, Idle, Busy(0, op, Granted), None, map[0 := q], [r])
    else if i == 9 then Scene(c, r, q, Idle, Busy(0, op, Entered), None, map[0 := q], [r, q])
    else if i == 10 then Scene(c, r, q, Busy(1, op, Waiting), Busy(0, op, Entered), Some(1), map[0 := q], [r, q])
    else if i == 11 then
      Scene(c, r, q, Busy(1, op, Granted), Busy(0, op, Entered), Some(1), map[0 := q, 1 := r], [r, q])
    else Scene(c, r, q, Busy(1, op, Entered), Busy(0, op, Entered), Some(1), map[0 := q, 1 := r], [r, q, r])
  }

  /** A remover and an older binary whose sharing lets them collide. */
  predicate Colliding(c: Config, r: Pid, q: Pid)
  {
    && (c.platform.Unix? || (c.platform.Windows? && c.plainShares))
    && r in c.lockers && q in c.lockers && c.lockers[r].Removing? && c.lockers[q].Plain?
  }

  /** The `i`-th step can be taken and leads to the next scene. */
  ghost predicate Collides(c: Config, r: Pid, q: Pid, i: nat)
  {
    && Enabled(c, CollisionState(c, r, q, i), CollisionEvent(c, r, q, i))
    && Next(c, CollisionState(c, r, q, i), CollisionEvent(c, r, q, i)) == CollisionState(c, r, q, i + 1)
  }

  lemma {:induction false} RemoverEnters(c: Config, r: Pid, q: Pid, i: nat)
    requires Colliding(c, r, q) && i < 3
    ensures Collides(c, r, q, i)
  {
    assert r != q;
    var s, e := CollisionState(c, r, q, i), CollisionEvent(c, r, q, i);
    assert Enabled(c, s, e);
    assert Next(c, s, e).procs == CollisionState(c, r, q, i + 1).procs;
  }

  lemma {:induction false} PlainOpens(c: Config, r: Pid, q: Pid, i: nat)
    requires Colliding(c, r, q) && 3 <= i < 5
    ensures Collides(c, r, q, i)
  {
    assert r != q;
    assert map[0 := r] - {0} == map[];
    var s, e := CollisionState(c, r, q, i), CollisionEvent(c, r, q, i);
    assert Enabled(c, s, e);
    assert Next(c, s, e).procs == CollisionState(c, r, q, i + 1).procs;
  }

  lemma {:induction false} PathRemoved(c: Config, r: Pid, q: Pid, i: nat)
    requires Colliding(c, r, q) && 5 <= i < 7
    ensures Collides(c, r, q, i)
  {
    assert r != q;
    assert map[0 := r] - {0} == map[];
    var s, e := CollisionState(c, r, q, i), CollisionEvent(c, r, q, i);
    assert Enabled(c, s, e);
    assert Next(c, s, e).procs == CollisionState(c, r, q, i + 1).procs;
  }

  lemma {:induction false} PlainEnters(c: Config, r: Pid, q: Pid, i: nat)
    requires Colliding(c, r, q) && 7 <= i < 9
    ensures Collides(c, r, q, i)
  {
    assert r != q;
    var s, e := CollisionState(c, r, q, i), CollisionEvent(c, r, q, i);
    assert Enabled(c, s, e);
    assert Next(c, s, e).procs == CollisionState(c, r, q, i + 1).procs;
  }

  lemma {:induction false} RemoverReturns(c: Config, r: Pid, q: Pid, i: nat)
    requires Colliding(c, r, q) && 9 <= i < 12
    ensures Collides(c, r, q, i)
  {
    assert r != q;
    var s, e := CollisionState(c, r, q, i), CollisionEvent(c, r, q, i);
    assert Enabled(c, s, e);
    assert Next(c, s, e).procs == CollisionState(c, r, q, i + 1).procs;
  }

  lemma {:induction false} CollisionStep(c: Config, r: Pid, q: Pid, i: nat)
    requires Colliding(c, r, q) && i < 12
    ensures Collides(c, r, q, i)
  {
    if i < 3 {
      RemoverEnters(c, r, q, i);
    } else if i < 5 {
      PlainOpens(c, r, q, i);
    } else if i < 7 {
      PathRemoved(c, r, q, i);
    } else if i < 9 {
      PlainEnters(c, r, q, i);
    } else {
      RemoverReturns(c, r, q, i);
    }
  }

  lemma {:induction false} CollisionStarts(c: Config, r: Pid, q: Pid)
    requires Colliding(c, r, q)
    ensures CollisionState(c, r, q, 0) == Init(c, None)
  {
    assert CollisionState(c, r, q, 0).procs == Init(c, None).procs;
  }

  lemma {:induction false} CollisionRun(c: Config, r: Pid, q: Pid) returns (events: seq<Event>, run: seq<State>)
    requires Colliding(c, r, q)
    ensures IsRun(c, None, events, run) && run[|run| - 1] == CollisionState(c, r, q, 12)
  {
    events := seq(12, (i: nat) => CollisionEvent(c, r, q, i));
    run := seq(13, (i: nat) => CollisionState(c, r, q, i));
    forall i | 0 <= i < 12
      ensures Enabled(c, run[i], events[i]) && run[i + 1] == Next(c, run[i], events[i])
    {
      CollisionStep(c, r, q, i);
    }
    CollisionStarts(c, r, q);
  }

  lemma {:induction false} MixedCollides(c: Config)
    requires Mixed(c)
    ensures !AlwaysExclusive(c)
  {
    var r :| r in c.lockers && c.lockers[r].Removing?;
    var q :| q in c.lockers && c.lockers[q].Plain?;
    var events, run := CollisionRun(c, r, q);
    var last := CollisionState(c, r, q, 12);
    assert Inside(last, r) && Inside(last, q) && r != q;
  }

  /** On every platform the lock excludes in every run exactly when removers and unchecking lockers are
      not mixed. */
  lemma {:induction false} ExclusiveIffNotMixed(c: Config)
    ensures AlwaysExclusive(c) <==> !Mixed(c)
  {
    if Mixed(c) {
      MixedCollides(c);
    } else {
      MutualExclusion(c);
    }
  }
}
