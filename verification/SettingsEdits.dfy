/** What concurrent edits and creates leave in the settings file (`writer.rs`), over the runs of the lock's
    protocol. */
module SettingsEdits {
  import opened Basics
  import opened SettingsLock

  /** What an edit makes of a file with the text `t`, there or not. */
  function Edited(f: string -> Verdict, t: string, file: Option<string>): Option<string>
  {
    match f(t) case Changed(body) => Some(body) case Unchanged => file case Refused => file
  }

  /** One call on the whole file, as if nothing else ran; a missing file reads as the empty text. */
  function Effect(op: Op, file: Option<string>): Option<string>
  {
    match (op, file)
    case (Edit(f), Some(t)) => Edited(f, t, file)
    case (Edit(f), None) => Edited(f, "", file)
    case (Create(body), None) => Some(body)
    case (Create(_), Some(_)) => file
  }

  function Replay(file: Option<string>, log: seq<Commit>): Option<string>
  {
    if |log| == 0 then file else Effect(log[|log| - 1].op, Replay(file, log[..|log| - 1]))
  }

  function EditAnswer(verdict: Verdict): Answer
  {
    match verdict case Changed(_) => Wrote case Unchanged => Left case Refused => Error
  }

  /** What the call answers when nothing else runs. */
  function AnswerAlone(op: Op, file: Option<string>): Answer
  {
    match (op, file)
    case (Edit(f), Some(t)) => EditAnswer(f(t))
    case (Edit(f), None) => EditAnswer(f(""))
    case (Create(_), None) => Wrote
    case (Create(_), Some(_)) => Left
  }

  /** Each finished call answered as it would have on the file the calls before it left. */
  ghost predicate Answered(file: Option<string>, log: seq<Commit>)
  {
    forall k | 0 <= k < |log| :: log[k].answer == AnswerAlone(log[k].op, Replay(file, log[..k]))
  }

  /** What process `p` has read or written so far is about the file as it stands. */
  ghost predicate WorkInv(s: State, p: Pid)
  {
    Inside(s, p) ==>
      && |s.takes| > 0 && s.takes[|s.takes| - 1] == p
      && (s.procs[p].stage.Loaded? ==>
            s.procs[p].op.Edit? && s.procs[p].stage.text == TextOf(s.file))
      && (s.procs[p].stage.Writing? ==>
            && s.procs[p].stage.tmp <= s.procs[p].stage.body
            && (if s.procs[p].op.Edit?
                then s.procs[p].op.f(TextOf(s.file)) == Changed(s.procs[p].stage.body)
                else s.procs[p].op.body == s.procs[p].stage.body))
      && (!s.procs[p].stage.Done? ==> forall c | c in s.log :: c.take < |s.takes| - 1)
  }

  /** The finished calls are in the order their processes took the lock, at most one for each take. */
  ghost predicate InLockOrder(s: State)
  {
    && (forall k | 0 <= k < |s.log| :: s.log[k].take < |s.takes| && s.takes[s.log[k].take] == s.log[k].pid)
    && (forall j, k | 0 <= j < k < |s.log| :: s.log[j].take < s.log[k].take)
  }

  ghost predicate DataInv(s: State, file: Option<string>)
  {
    && (forall p :: WorkInv(s, p))
    && InLockOrder(s)
    && s.file == Replay(file, s.log)
    && Answered(file, s.log)
  }

  /** Nobody else is inside, so a step of `p` that keeps file and log keeps everyone's work. */
  lemma {:induction false} WorkElsewhere(c: Config, s: State, t: State, p: Pid)
    requires LockInv(c, s) && (forall q :: WorkInv(s, q))
    requires p in s.procs && p in t.procs && t.procs.Keys == s.procs.Keys
    requires forall q | q in s.procs && q != p :: t.procs[q] == s.procs[q]
    requires Inside(s, p) || (t.file == s.file && t.log == s.log && t.takes == s.takes)
    requires WorkInv(t, p)
    ensures forall q :: WorkInv(t, q)
  {
    LockInvExcludes(c, s);
    forall q ensures WorkInv(t, q) {
      assert WorkInv(s, q);
      if q != p && q in s.procs {
        assert Inside(t, q) <==> Inside(s, q);
      }
    }
  }

  /** A call that finishes is recorded last, under its own take. */
  lemma {:induction false} FinishOrder(s: State, p: Pid, answer: Answer)
    requires WorkInv(s, p) && InLockOrder(s) && Inside(s, p) && !s.procs[p].stage.Done?
    ensures InLockOrder(Finish(s, p, answer))
  {
    var t := Finish(s, p, answer);
    assert t.log[..|s.log|] == s.log;
    forall j, k | 0 <= j < k < |t.log| ensures t.log[j].take < t.log[k].take {
      assert t.log[j] == s.log[j] && s.log[j] in s.log;
    }
  }

  lemma {:induction false} FinishWork(c: Config, s: State, t: State, p: Pid, answer: Answer)
    requires LockInv(c, s) && (forall q :: WorkInv(s, q)) && Inside(s, p)
    requires t == Finish(s, p, answer).(file := t.file)
    ensures forall q :: WorkInv(t, q)
  {
    assert WorkInv(s, p);
    WorkElsewhere(c, s, t, p);
  }

  lemma {:induction false} FinishKeeps(c: Config, s: State, t: State, p: Pid, answer: Answer, file: Option<string>)
    requires LockInv(c, s) && DataInv(s, file) && Inside(s, p) && !s.procs[p].stage.Done?
    requires t == Finish(s, p, answer).(file := t.file) && t.file == Effect(s.procs[p].op, s.file)
    requires answer == AnswerAlone(s.procs[p].op, s.file)
    ensures DataInv(t, file)
  {
    FinishWork(c, s, t, p, answer);
    FinishOrder(s, p, answer);
    FinishAnswers(s, t, p, answer, file);
  }

  lemma {:induction false} FinishAnswers(s: State, t: State, p: Pid, answer: Answer, file: Option<string>)
    requires s.file == Replay(file, s.log) && Answered(file, s.log) && At(s, p)
    requires t == Finish(s, p, answer).(file := t.file) && t.file == Effect(s.procs[p].op, s.file)
    requires answer == AnswerAlone(s.procs[p].op, s.file)
    ensures t.file == Replay(file, t.log) && Answered(file, t.log)
  {
    AnswerMore(file, s.log, t.log[|s.log|]);
  }

  lemma {:induction false} AnswerMore(file: Option<string>, log: seq<Commit>, last: Commit)
    requires Answered(file, log) && last.answer == AnswerAlone(last.op, Replay(file, log))
    ensures Answered(file, log + [last]) && Replay(file, log + [last]) == Effect(last.op, Replay(file, log))
  {
    var more := log + [last];
    assert more[..|log|] == log;
    forall k | 0 <= k < |more| ensures more[k].answer == AnswerAlone(more[k].op, Replay(file, more[..k])) {
      if k < |log| { assert more[..k] == log[..k]; }
    }
  }

  lemma {:induction false} EnterKeeps(c: Config, s: State, t: State, p: Pid, file: Option<string>)
    requires LockInv(c, s) && LockInv(c, t) && DataInv(s, file)
    requires At(s, p) && t == Go(s, p, Entered).(takes := s.takes + [p])
    ensures DataInv(t, file)
  {
    LockInvExcludes(c, t);
    forall q ensures WorkInv(t, q) {
      if Inside(t, q) {
        assert Inside(t, p);
        assert forall l | l in t.log :: l.take < |s.takes|;
      }
    }
    assert forall k | 0 <= k < |t.log| :: t.takes[t.log[k].take] == s.takes[t.log[k].take];
  }

  /** The steps that only take, give back or wait for the lock. */
  lemma {:induction false} QuietStep(c: Config, s: State, e: Event)
    requires Enabled(c, s, e)
    requires e.Open? || e.Lock? || e.GiveUp? || e.Retry? || e.Abort? || e.Unlink? || e.Close? || e.Delete? || e.Crash?
    ensures var t := Next(c, s, e); t.file == s.file && t.log == s.log && t.takes == s.takes
    ensures e.p in s.procs && var t := Next(c, s, e); e.p in t.procs && t.procs == s.procs[e.p := t.procs[e.p]]
    ensures Inside(Next(c, s, e), e.p) ==> Inside(s, e.p) && Next(c, s, e).procs[e.p].stage.Done?
  {
    assert Next(c, s, e).procs == s.procs[e.p := Next(c, s, e).procs[e.p]];
  }

  lemma {:induction false} QuietKeeps(c: Config, s: State, e: Event, file: Option<string>)
    requires !c.outsiders && LockInv(c, s) && DataInv(s, file) && Enabled(c, s, e)
    requires e.Open? || e.Lock? || e.GiveUp? || e.Retry? || e.Abort? || e.Unlink? || e.Close? || e.Delete? || e.Crash?
    ensures DataInv(Next(c, s, e), file)
  {
    QuietStep(c, s, e);
    assert WorkInv(s, e.p);
    WorkElsewhere(c, s, Next(c, s, e), e.p);
  }

  /** Reading the file, starting a temporary file and writing to it. */
  lemma {:induction false} WorkStep(c: Config, s: State, e: Event)
    requires Enabled(c, s, e) && (e.Load? || e.Prepare? || e.Append?) && WorkInv(s, e.p)
    ensures Inside(s, e.p) && WorkInv(Next(c, s, e), e.p)
    ensures var t := Next(c, s, e); t.file == s.file && t.log == s.log && t.takes == s.takes
    ensures var t := Next(c, s, e); e.p in t.procs && t.procs == s.procs[e.p := t.procs[e.p]]
  {
    var t := Next(c, s, e);
    assert t.procs == s.procs[e.p := t.procs[e.p]];
  }

  lemma {:induction false} WorkKeeps(c: Config, s: State, e: Event, file: Option<string>)
    requires !c.outsiders && LockInv(c, s) && DataInv(s, file) && Enabled(c, s, e)
    requires e.Load? || e.Prepare? || e.Append?
    ensures DataInv(Next(c, s, e), file)
  {
    assert WorkInv(s, e.p);
    WorkStep(c, s, e);
    WorkElsewhere(c, s, Next(c, s, e), e.p);
  }

  /** An edit that changes the text starts its temporary file. */
  lemma {:induction false} ChangeKeeps(c: Config, s: State, p: Pid, body: string, file: Option<string>)
    requires LockInv(c, s) && DataInv(s, file) && At(s, p) && s.procs[p].stage.Loaded? && s.procs[p].op.Edit?
    requires s.procs[p].op.f(s.procs[p].stage.text) == Changed(body)
    ensures DataInv(Go(s, p, Writing(body, "")), file)
  {
    assert WorkInv(s, p);
    WorkElsewhere(c, s, Go(s, p, Writing(body, "")), p);
  }

  /** One that refuses it or leaves it as it is is over. */
  lemma {:induction false} RestKeeps(c: Config, s: State, p: Pid, answer: Answer, file: Option<string>)
    requires LockInv(c, s) && DataInv(s, file) && At(s, p) && s.procs[p].stage.Loaded? && s.procs[p].op.Edit?
    requires !s.procs[p].op.f(s.procs[p].stage.text).Changed?
    requires answer == if s.procs[p].op.f(s.procs[p].stage.text).Refused? then Error else Left
    ensures DataInv(Finish(s, p, answer), file)
  {
    assert WorkInv(s, p);
    FinishKeeps(c, s, Finish(s, p, answer), p, answer, file);
  }

  lemma {:induction false} DecideKeeps(c: Config, s: State, e: Event, file: Option<string>)
    requires !c.outsiders && LockInv(c, s) && DataInv(s, file) && Enabled(c, s, e) && e.Decide?
    ensures DataInv(Next(c, s, e), file)
  {
    match s.procs[e.p].op.f(s.procs[e.p].stage.text)
    case Changed(body) => ChangeKeeps(c, s, e.p, body, file);
    case Unchanged => RestKeeps(c, s, e.p, Left, file);
    case Refused => RestKeeps(c, s, e.p, Error, file);
  }

  lemma {:induction false} DataInvStep(c: Config, s: State, e: Event, file: Option<string>)
    requires !Mixed(c) && !c.outsiders && LockInv(c, s) && DataInv(s, file) && Enabled(c, s, e)
    ensures DataInv(Next(c, s, e), file)
  {
    if e.Enter? {
      LockInvStep(c, s, e);
      EnterKeeps(c, s, Next(c, s, e), e.p, file);
    } else if e.Decide? {
      DecideKeeps(c, s, e, file);
    } else if e.Rename? || e.Link? {
      assert WorkInv(s, e.p);
      FinishKeeps(c, s, Next(c, s, e), e.p, if e.Link? && s.file.Some? then Left else Wrote, file);
    } else if e.Load? || e.Prepare? || e.Append? {
      WorkKeeps(c, s, e, file);
    } else {
      QuietKeeps(c, s, e, file);
    }
  }

  lemma {:induction false} RunKeepsData(c: Config, file: Option<string>, events: seq<Event>, run: seq<State>, n: nat)
    requires !Mixed(c) && !c.outsiders && IsRun(c, file, events, run) && n < |run|
    ensures DataInv(run[n], file)
  {
    if n > 0 {
      RunKeepsData(c, file, events, run, n - 1);
      RunKeepsLock(c, file, events, run, n - 1);
      DataInvStep(c, run[n - 1], events[n - 1], file);
    }
  }

  /** Every run of concurrent calls leaves the file equal to the finished calls applied one after
      another, in the order they took the lock, and each has answered as it would in that order. */
  lemma {:induction false} EditsSerialise(c: Config, file: Option<string>, events: seq<Event>, run: seq<State>)
    requires !Mixed(c) && !c.outsiders && IsRun(c, file, events, run)
    ensures var last := run[|run| - 1];
            InLockOrder(last) && last.file == Replay(file, last.log) && Answered(file, last.log)
  {
    RunKeepsData(c, file, events, run, |run| - 1);
  }

  lemma {:induction false} LogGrows(c: Config, file: Option<string>, events: seq<Event>, run: seq<State>, i: nat,
                                    j: nat)
    requires IsRun(c, file, events, run) && i <= j < |run|
    ensures run[i].log <= run[j].log
    decreases j
  {
    if i < j {
      LogGrows(c, file, events, run, i, j - 1);
      LogStep(c, run[j - 1], events[j - 1]);
    }
  }

  lemma {:induction false} LogStep(c: Config, s: State, e: Event)
    requires Enabled(c, s, e)
    ensures s.log <= Next(c, s, e).log
  {
  }

  /** `seen` is the file after the first `n` finished calls. */
  ghost predicate IsVersion(file: Option<string>, log: seq<Commit>, seen: Option<string>, n: nat)
  {
    n <= |log| && seen == Replay(file, log[..n])
  }

  /** A reader at any step sees one whole version: the start of the final history, replayed. */
  lemma {:induction false} ReaderSeesWholeVersion(c: Config, file: Option<string>, events: seq<Event>,
                                                  run: seq<State>, i: nat)
    returns (n: nat)
    requires !Mixed(c) && !c.outsiders && IsRun(c, file, events, run) && i < |run|
    ensures IsVersion(file, run[|run| - 1].log, run[i].file, n)
  {
    RunKeepsData(c, file, events, run, i);
    LogGrows(c, file, events, run, i, |run| - 1);
    assert run[|run| - 1].log[..|run[i].log|] == run[i].log;
    n := |run[i].log|;
  }

  // ----- one call of a run -----

  /** An edit reads the file's text, and a missing file as the empty one. */
  lemma {:induction false} LoadReads(c: Config, file: Option<string>, events: seq<Event>, run: seq<State>, i: nat)
    requires IsRun(c, file, events, run) && i < |events| && events[i].Load?
    ensures At(run[i + 1], events[i].p)
    ensures match run[i].file
            case Some(t) => run[i + 1].procs[events[i].p].stage == Loaded(t)
            case None => run[i + 1].procs[events[i].p].stage == Loaded("")
  {
    assert Enabled(c, run[i], events[i]);
  }

  /** What an edit that finishes leaves of a file with the text `t`, there or not. */
  predicate Finished(f: string -> Verdict, t: string, before: Option<string>, after: Option<string>, answer: Answer)
  {
    match f(t)
    case Changed(body) => after == Some(body) && answer == Wrote
    case Unchanged => after == before && answer == Left
    case Refused => after == before && answer == Error
  }

  lemma {:induction false} FinishedAlone(f: string -> Verdict, before: Option<string>, after: Option<string>,
                                         answer: Answer)
    requires after == Effect(Edit(f), before) && answer == AnswerAlone(Edit(f), before)
    ensures Finished(f, if before.Some? then before.value else "", before, after, answer)
  {
  }

  /** An edit that finishes in a run leaves what it makes of the whole file as it stands at that step: the new
      text, or the file as it was. */
  lemma {:induction false} EditFinishes(c: Config, file: Option<string>, events: seq<Event>, run: seq<State>, i: nat,
                                        done: Commit)
    requires !Mixed(c) && !c.outsiders && IsRun(c, file, events, run) && i < |events|
    requires run[i + 1].log == run[i].log + [done] && done.op.Edit?
    ensures match run[i].file
            case Some(t) => Finished(done.op.f, t, run[i].file, run[i + 1].file, done.answer)
            case None => Finished(done.op.f, "", None, run[i + 1].file, done.answer)
  {
    RunKeepsData(c, file, events, run, i);
    RunKeepsData(c, file, events, run, i + 1);
    LastCommit(file, run[i].log, done);
    FinishedAlone(done.op.f, run[i].file, run[i + 1].file, done.answer);
  }

  lemma {:induction false} LastCommit(file: Option<string>, log: seq<Commit>, last: Commit)
    requires Answered(file, log + [last])
    ensures Replay(file, log + [last]) == Effect(last.op, Replay(file, log))
    ensures last.answer == AnswerAlone(last.op, Replay(file, log))
  {
    var more := log + [last];
    assert more[..|log|] == log && more[|log|] == last;
  }

  /** A rename finishes its edit, whose new text the file is from then on. */
  lemma {:induction false} RenameWrites(c: Config, file: Option<string>, events: seq<Event>, run: seq<State>, i: nat)
    requires !Mixed(c) && !c.outsiders && IsRun(c, file, events, run) && i < |events| && events[i].Rename?
    ensures At(run[i], events[i].p) && run[i].procs[events[i].p].op.Edit?
    ensures |run[i + 1].log| == |run[i].log| + 1
    ensures var f, done := run[i].procs[events[i].p].op.f, run[i + 1].log[|run[i].log|];
            && done.pid == events[i].p && done.op == Edit(f) && done.answer == Wrote
            && match run[i].file
               case Some(t) => f(t).Changed? && run[i + 1].file == Some(f(t).text)
               case None => f("").Changed? && run[i + 1].file == Some(f("").text)
  {
    RunKeepsData(c, file, events, run, i);
    assert Enabled(c, run[i], events[i]);
    assert WorkInv(run[i], events[i].p);
  }

  /** The events can be taken one after another from `s`, and end in `t`. */
  ghost predicate Leads(c: Config, s: State, events: seq<Event>, t: State)
    decreases |events|
  {
    if events == [] then s == t
    else Enabled(c, s, events[0]) && Leads(c, Next(c, s, events[0]), events[1..], t)
  }

  lemma {:induction false} LeadsFirst(c: Config, s: State, e: Event, more: seq<Event>, t: State)
    requires Enabled(c, s, e) && Leads(c, Next(c, s, e), more, t)
    ensures Leads(c, s, [e] + more, t)
  {
    assert ([e] + more)[1..] == more;
  }

  /** The lock is free for `p`: its path names no file, or one that nobody has locked. */
  predicate Free(s: State, p: Pid)
  {
    p in s.procs && s.procs[p].Idle? && (s.entry.Some? ==> s.entry.value !in s.owner)
  }

  /** An inode no handle is open on. */
  lemma {:induction false} NewInode(procs: map<Pid, Proc>) returns (ino: Inode)
    ensures forall q | q in procs && procs[q].Busy? :: procs[q].ino < ino
    decreases |procs|
  {
    if procs.Keys == {} {
      ino := 0;
    } else {
      var q :| q in procs;
      var rest := procs - {q};
      ino := NewInode(rest);
      assert forall r | r in rest :: rest[r] == procs[r];
      assert forall r | r in procs && r != q :: r in rest;
      if procs[q].Busy? && procs[q].ino >= ino { ino := procs[q].ino + 1; }
    }
  }

  /** A free lock can be taken in three steps, whoever else waits. */
  lemma {:induction false} FreeLockTaken(c: Config, s: State, p: Pid, op: Op) returns (events: seq<Event>, t: State)
    requires LockInv(c, s) && Free(s, p)
    ensures Leads(c, s, events, t)
    ensures At(t, p) && t.procs[p].stage.Entered? && t.procs[p].op == op && t.file == s.file && t.log == s.log
  {
    var ino: nat;
    if s.entry.Some? { ino := s.entry.value; } else { ino := NewInode(s.procs); }
    var waiting := Next(c, s, Open(p, op, ino));
    assert ino !in s.owner by {
      assert OwnerInv(s, ino);
    }
    var granted := Next(c, waiting, Lock(p));
    t := Next(c, granted, Enter(p));
    assert Leads(c, t, [], t);
    LeadsFirst(c, granted, Enter(p), [], t);
    LeadsFirst(c, waiting, Lock(p), [Enter(p)] + [], t);
    events := [Open(p, op, ino)] + ([Lock(p)] + ([Enter(p)] + []));
    LeadsFirst(c, s, Open(p, op, ino), [Lock(p)] + ([Enter(p)] + []), t);
  }

  /** A process past `take` can finish its call alone, and leaves of the file what the call makes of it. */
  lemma {:induction false} CallCompletes(c: Config, s: State, p: Pid) returns (events: seq<Event>, t: State)
    requires At(s, p) && s.procs[p].stage.Entered?
    ensures Leads(c, s, events, t) && At(t, p) && t.procs[p].stage.Done?
    ensures t.file == Effect(s.procs[p].op, s.file) && |t.log| == |s.log| + 1
    ensures var done := t.log[|s.log|];
            done.pid == p && done.op == s.procs[p].op && done.answer == AnswerAlone(s.procs[p].op, s.file)
  {
    var op := s.procs[p].op;
    if op.Create? {
      var begun := Next(c, s, Prepare(p));
      events, t := WritingCompletes(c, begun, p, op.body);
      LeadsFirst(c, s, Prepare(p), events, t);
      events := [Prepare(p)] + events;
    } else {
      var read := Next(c, s, Load(p));
      var decided := Next(c, read, Decide(p));
      if op.f(TextOf(s.file)).Changed? {
        events, t := WritingCompletes(c, decided, p, op.f(TextOf(s.file)).text);
      } else {
        events, t := [], decided;
      }
      LeadsFirst(c, read, Decide(p), events, t);
      LeadsFirst(c, s, Load(p), [Decide(p)] + events, t);
      events := [Load(p)] + ([Decide(p)] + events);
    }
  }

  /** One chunk with the whole text, and the temporary file is put in place. */
  lemma {:induction false} WritingCompletes(c: Config, s: State, p: Pid, body: string)
    returns (events: seq<Event>, t: State)
    requires At(s, p) && s.procs[p].stage == Writing(body, "")
    ensures Leads(c, s, events, t) && At(t, p) && t.procs[p].stage.Done? && |t.log| == |s.log| + 1
    ensures s.procs[p].op.Edit? || s.file.None? ==> t.file == Some(body)
    ensures s.procs[p].op.Create? && s.file.Some? ==> t.file == s.file
    ensures var done := t.log[|s.log|];
            && done.pid == p && done.op == s.procs[p].op
            && done.answer == if s.procs[p].op.Create? && s.file.Some? then Left else Wrote
  {
    assert "" + body == body;
    var written := Next(c, s, Append(p, body));
    var last := if s.procs[p].op.Edit? then Rename(p) else Link(p);
    t := Next(c, written, last);
    LeadsFirst(c, written, last, [], t);
    LeadsFirst(c, s, Append(p, body), [last] + [], t);
    events := [Append(p, body)] + ([last] + []);
  }

  /** A create writes its own text. */
  predicate OwnTextOf(proc: Proc)
  {
    proc.Busy? && proc.stage.Writing? && proc.op.Create? ==> proc.stage.body == proc.op.body
  }

  ghost predicate OwnText(s: State) { forall p | p in s.procs :: OwnTextOf(s.procs[p]) }

  lemma {:induction false} OnlyOne(c: Config, s: State, e: Event)
    requires Enabled(c, s, e) && !e.Outside?
    ensures e.p in s.procs && var t := Next(c, s, e); e.p in t.procs && t.procs == s.procs[e.p := t.procs[e.p]]
  {
    assert Next(c, s, e).procs == s.procs[e.p := Next(c, s, e).procs[e.p]];
  }

  lemma {:induction false} OwnTextNext(c: Config, s: State, e: Event)
    requires Enabled(c, s, e) && !e.Outside? && e.p in s.procs && OwnTextOf(s.procs[e.p])
    ensures e.p in Next(c, s, e).procs && OwnTextOf(Next(c, s, e).procs[e.p])
  {
  }

  lemma {:induction false} OwnTextStep(c: Config, s: State, e: Event)
    requires OwnText(s) && Enabled(c, s, e)
    ensures OwnText(Next(c, s, e))
  {
    if !e.Outside? {
      OnlyOne(c, s, e);
      OwnTextNext(c, s, e);
    }
  }

  lemma {:induction false} RunKeepsText(c: Config, file: Option<string>, events: seq<Event>, run: seq<State>, n: nat)
    requires IsRun(c, file, events, run) && n < |run|
    ensures OwnText(run[n])
  {
    if n > 0 {
      RunKeepsText(c, file, events, run, n - 1);
      OwnTextStep(c, run[n - 1], events[n - 1]);
    }
  }

  /** In every run, mixed lockers and lockless writers included, a create answers that it wrote the file
      exactly when none was there, and then the file is its text. */
  lemma {:induction false} CreateAnswers(c: Config, file: Option<string>, events: seq<Event>, run: seq<State>, i: nat)
    requires IsRun(c, file, events, run) && i < |events| && events[i].Link?
    ensures |run[i + 1].log| == |run[i].log| + 1
    ensures var made := run[i + 1].log[|run[i].log|];
            && made.pid == events[i].p && made.op.Create? && made.answer in {Wrote, Left}
            && (made.answer == Wrote <==> run[i].file.None?)
            && run[i + 1].file == if made.answer == Wrote then Some(made.op.body) else run[i].file
  {
    RunKeepsText(c, file, events, run, i);
    assert Enabled(c, run[i], events[i]);
  }

  /** No create from here on has answered that it wrote the file. */
  ghost predicate NoneMade(log: seq<Commit>, from: nat)
  {
    forall k | from <= k < |log| && log[k].op.Create? :: log[k].answer != Wrote
  }

  /** Whoever is at work, mixed lockers and lockless writers included: while no edit is renamed into
      place and no outsider writes, a file that is there stays as it is, however many creates run, and
      each of them answers that it left it. */
  lemma {:induction false} CreateNeverReplaces(c: Config, file: Option<string>, events: seq<Event>,
                                               run: seq<State>, i: nat, j: nat)
    requires IsRun(c, file, events, run) && i <= j < |run| && run[i].file.Some?
    requires forall k | i <= k < j :: !events[k].Rename? && !events[k].Outside?
    ensures run[j].file == run[i].file
    ensures NoneMade(run[j].log, |run[i].log|)
    decreases j
  {
    if i < j {
      CreateNeverReplaces(c, file, events, run, i, j - 1);
      LeavesFile(c, run[j - 1], events[j - 1], |run[i].log|);
    }
  }

  lemma {:induction false} LeavesFile(c: Config, s: State, e: Event, from: nat)
    requires Enabled(c, s, e) && !e.Rename? && !e.Outside? && s.file.Some? && NoneMade(s.log, from)
    ensures Next(c, s, e).file == s.file && NoneMade(Next(c, s, e).log, from)
  {
  }
}
