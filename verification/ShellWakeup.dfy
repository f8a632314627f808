/** When a suspended shell comes back to its prompt by itself (shelllab/tsh.c): by taking the
    SIGCHLD that is pending, running its handler and testing the foreground job again. */
module ShellWakeup {
  import opened JobTable
  import opened Shell
  import opened ShellSafety
  import opened ShellTheorems

  /** The steps of the shell and its handlers, with nothing new happening outside: no child
      moves, and no signal but SIGCHLD is delivered. */
  predicate Own(e: Event) {
    e.M? || e.H? || e == K(Delivers(CHLD))
  }

  ghost predicate OwnRun(s: State, events: seq<Event>) {
    Feasible(s, events) && forall e :: e in events ==> Own(e)
  }

  ghost predicate Leads(s: State, s': State) {
    exists events :: OwnRun(s, events) && Exec(s, events) == s'
  }

  /** Some run of its own steps brings the shell to its prompt. */
  ghost predicate WakesUp(s: State) {
    exists s' :: Leads(s, s') && s'.main.Prompt?
  }

  lemma LeadsNowhere(s: State)
    ensures Leads(s, s)
  {
    assert OwnRun(s, []) && Exec(s, []) == s;
  }

  lemma LeadsOn(s: State, s': State, e: Event)
    requires Leads(s, s') && Enabled(s', e) && Own(e)
    ensures Leads(s, Apply(s', e))
  {
    var events :| OwnRun(s, events) && Exec(s, events) == s';
    ExtendRun(s, events, e);
    assert OwnRun(s, events + [e]) && Exec(s, events + [e]) == Apply(s', e);
  }

  /** A child that the handler cannot write down: it was never listed, and has stopped. */
  predicate Stray(k: Kids, p: int) {
    p in k.unlisted && p in k.children && k.children[p] == Stopped(false)
  }

  // ---- It does wake up ----

  /** In the SIGCHLD handler that interrupted the wait for the job `p`, about to call waitpid. */
  ghost predicate Serving(s: State, p: int) {
    Inv(s) && InBody(s) && Settling(s.table, s.kids, p)
  }

  predicate InBody(s: State) {
    InHandler(s, Body)
  }

  predicate InHandler(s: State, phase: Phase) {
    s.main == Check && s.frames == [Frame(CHLD, phase, {CHLD}, ALL)] && s.prev == {} && |s.table.jobs| == MAXJOBS
  }

  /** No job but `p` is in the foreground, its child does not run, and there are no strays. */
  ghost predicate Settling(t: Table, k: Kids, p: int) {
    && |t.jobs| == MAXJOBS && (forall q :: StateOf(t, q) == FG ==> q == p)
    && (p in k.children ==> k.children[p] != Running)
    && forall q :: !Stray(k, q)
  }

  lemma OnlyForeground(s: State)
    requires Reachable(s) && s.main.Suspended?
    ensures |s.table.jobs| == MAXJOBS && FgJob(s.table) != 0
    ensures var p := FgPid(s.table);
            p in s.kids.children && StateOf(s.table, p) == FG && forall q :: StateOf(s.table, q) == FG ==> q == p
  {
    NoLostWakeup(s);
    ReachableInv(s);
    var p := FgPid(s.table);
    ForegroundIsChild(s.table, s.kids, s.main);
    forall q | StateOf(s.table, q) == FG ensures q == p { ForegroundIsUnique(s, p, q); }
  }

  /** SIGCHLD is delivered, and its handler blocks the signals. */
  lemma StartsServing(s: State) returns (s': State)
    requires Reachable(s) && s.main.Suspended? && |s.table.jobs| == MAXJOBS && FgJob(s.table) != 0
    requires FgPid(s.table) in s.kids.children ==> s.kids.children[FgPid(s.table)] != Running
    requires forall q :: !Stray(s.kids, q)
    ensures Leads(s, s') && Serving(s', FgPid(s.table))
  {
    NoLostWakeup(s);
    ReachableInv(s);
    OnlyForeground(s);
    EntersBody(s);
    LeadsNowhere(s);
    LeadsOn(s, s, K(Delivers(CHLD)));
    StepKeepsInv(s, K(Delivers(CHLD)));
    var entered := Apply(s, K(Delivers(CHLD)));
    LeadsOn(s, entered, H(Blocks));
    StepKeepsInv(entered, H(Blocks));
    s' := Apply(entered, H(Blocks));
  }

  lemma EntersBody(s: State)
    requires s.main == Suspended(ALL) && s.frames == [] && s.mask == {} && s.prev == {}
    requires CHLD in s.pending && |s.table.jobs| == MAXJOBS
    ensures Enabled(s, K(Delivers(CHLD))) && Enabled(Apply(s, K(Delivers(CHLD))), H(Blocks))
    ensures var s' := Apply(Apply(s, K(Delivers(CHLD))), H(Blocks));
            InBody(s') && s'.table == s.table && s'.kids == s.kids
  {
    var entered := Apply(s, K(Delivers(CHLD)));
    assert Below(entered) == [] && Top(entered) == Frame(CHLD, Entry, {}, ALL) && entered.mask == {CHLD};
  }

  function Unreported(children: map<int, Child>): set<int> {
    set p | p in children && Reportable(children[p])
  }

  /** One round of the drain loop. */
  lemma Serves(s: State, p: int, q: int) returns (s': State)
    requires Serving(s, p) && q in s.kids.children && Reportable(s.kids.children[q])
    ensures Enabled(s, H(Waits(q))) && Enabled(Apply(s, H(Waits(q))), H(Updates))
    ensures s' == Apply(Apply(s, H(Waits(q))), H(Updates)) && Serving(s', p)
    ensures Unreported(s'.kids.children) == Unreported(s.kids.children) - {q}
  {
    var waited := Apply(s, H(Waits(q)));
    StepKeepsInv(s, H(Waits(q)));
    WaitIsReported(s, q);
    assert !Stray(s.kids, q);
    HandlerAborts(waited, Updates);
    s' := Apply(waited, H(Updates));
    StepKeepsInv(waited, H(Updates));
    ReportWritten(s, waited, s', p, q);
    BackInBody(waited, q, s.kids.children[q].Zombie?);
  }

  lemma WaitIsReported(s: State, q: int)
    requires InBody(s) && q in s.kids.children && Reportable(s.kids.children[q])
    ensures Enabled(s, H(Waits(q)))
    ensures var waited := Apply(s, H(Waits(q)));
            && Enabled(waited, H(Updates)) && waited.kids.unlisted == s.kids.unlisted
            && InHandler(waited, Got(q, s.kids.children[q].Zombie?))
  {
  }

  lemma BackInBody(s: State, q: int, dead: bool)
    requires InHandler(s, Got(q, dead)) && Enabled(s, H(Updates))
    ensures !Apply(s, H(Updates)).main.Aborted? ==> InBody(Apply(s, H(Updates)))
  {
    assert Below(s) == [] && Top(s) == Frame(CHLD, Got(q, dead), {CHLD}, ALL);
    if !Apply(s, H(Updates)).main.Aborted? { UpdateWrites(s, q, dead); }
    DeletedHasSlots(s.table, JobFromPid(s.table, q));
  }

  lemma DeletedHasSlots(t: Table, jid: int)
    requires |t.jobs| == MAXJOBS
    ensures DeleteJob(t, jid).Done? && |DeleteJob(t, jid).table.jobs| == MAXJOBS
  {
  }

  lemma ReportWritten(s: State, waited: State, s': State, p: int, q: int)
    requires Serving(s, p) && Enabled(s, H(Waits(q))) && waited == Apply(s, H(Waits(q)))
    requires Enabled(waited, H(Updates)) && s' == Apply(waited, H(Updates)) && !s'.main.Aborted?
    ensures Settling(s'.table, s'.kids, p)
    ensures Unreported(s'.kids.children) == Unreported(s.kids.children) - {q}
  {
    var dead := s.kids.children[q].Zombie?;
    assert waited.table == s.table && Top(waited).phase == Got(q, dead);
    UpdateWrites(waited, q, dead);
    if dead { DeleteJobDeletes(s.table, q); } else { SetStateSets(s.table, q, ST); }
    ReportSettles(s.table, s'.table, s.kids, s'.kids, p, q, if dead then UNDEF else ST);
  }

  lemma ReportSettles(t: Table, t': Table, k: Kids, k': Kids, p: int, q: int, x: JobState)
    requires Settling(t, k, p) && |t'.jobs| == MAXJOBS && OnlyChanges(t, t', q, x) && x != FG && q in k.children
    requires k'.children == if k.children[q].Zombie? then k.children - {q} else k.children[q := Stopped(true)]
    requires k'.unlisted <= k.unlisted
    ensures Settling(t', k', p) && Unreported(k'.children) == Unreported(k.children) - {q}
  {
    forall r ensures !Stray(k', r) { assert !Stray(k, r); }
  }

  /** The loop ends with nothing left to report. */
  lemma {:induction false} Drains(s0: State, s: State, p: int) returns (s': State)
    requires Leads(s0, s) && Serving(s, p)
    ensures Leads(s0, s') && Serving(s', p) && NothingToReport(s'.kids.children)
    decreases |Unreported(s.kids.children)|
  {
    if NothingToReport(s.kids.children) {
      s' := s;
    } else {
      var q :| q in s.kids.children && Reportable(s.kids.children[q]);
      assert q in Unreported(s.kids.children);
      var served := Serves(s, p, q);
      LeadsOn(s0, s, H(Waits(q)));
      LeadsOn(s0, Apply(s, H(Waits(q))), H(Updates));
      s' := Drains(s0, served, p);
    }
  }

  /** The handler returns into the loop. */
  lemma HandlerReturns(s0: State, s: State, p: int) returns (s': State)
    requires Leads(s0, s) && Serving(s, p) && NothingToReport(s.kids.children)
    ensures Leads(s0, s') && s' == s.(frames := [], mask := ALL)
  {
    LeavesBody(s);
    var drained := Apply(s, H(Drained));
    LeadsOn(s0, s, H(Drained));
    var restored := Apply(drained, H(Restores));
    LeadsOn(s0, drained, H(Restores));
    s' := Apply(restored, H(Returns));
    LeadsOn(s0, restored, H(Returns));
  }

  lemma LeavesBody(s: State)
    requires InBody(s) && NothingToReport(s.kids.children)
    ensures Enabled(s, H(Drained))
    ensures var drained := Apply(s, H(Drained));
            && Enabled(drained, H(Restores)) && Enabled(Apply(drained, H(Restores)), H(Returns))
            && Apply(Apply(drained, H(Restores)), H(Returns)) == s.(frames := [], mask := ALL)
  {
    var drained := Apply(s, H(Drained));
    assert InHandler(drained, Restore) && drained == s.(frames := drained.frames);
    var restored := Apply(drained, H(Restores));
    assert InHandler(restored, Exit) && restored == s.(frames := restored.frames, mask := {CHLD});
    assert Below(restored) == [];
  }

  /** With everything reported and written down no job is in the foreground. */
  lemma NoneInForeground(s: State, p: int)
    requires Serving(s, p) && NothingToReport(s.kids.children)
    ensures FgJob(s.table) == 0
  {
    assert Report(s) == Body;
    assert Look(s.table)(p) == StateOf(s.table, p);
    assert p in s.kids.children ==> s.kids.children[p] == Stopped(true);
    FgJobFinds(s.table);
  }

  /** Without a stray, the end of the foreground job brings the shell back to its prompt. */
  lemma ItWakesUp(s: State)
    requires Reachable(s) && s.main.Suspended? && |s.table.jobs| == MAXJOBS && FgJob(s.table) != 0
    requires FgPid(s.table) in s.kids.children ==> s.kids.children[FgPid(s.table)] != Running
    requires forall q :: !Stray(s.kids, q)
    ensures WakesUp(s)
  {
    var p := FgPid(s.table);
    var serving := StartsServing(s);
    var drained := Drains(s, serving, p);
    var back := HandlerReturns(s, drained, p);
    NoneInForeground(drained, p);
    var tested := Apply(back, M(TestsForeground));
    LeadsOn(s, back, M(TestsForeground));
    assert tested.main == Unblock;
    LeadsOn(s, tested, M(RestoresMask));
    assert Apply(tested, M(RestoresMask)).main.Prompt?;
  }

  // ---- It sleeps on ----

  /** Waiting for the job `p`, whose child runs. */
  predicate Waiting(s: State, p: int) {
    !s.main.Aborted? ==>
      && |s.table.jobs| == MAXJOBS && StateOf(s.table, p) == FG && (s.main.Suspended? || s.main.Check?)
      && p in s.kids.children && s.kids.children[p] == Running
      && (Report(s).Got? ==> Report(s).pid != p)
  }

  lemma WaitsOn(s: State, p: int, e: Event)
    requires Inv(s) && Waiting(s, p) && Enabled(s, e) && Own(e)
    ensures Inv(Apply(s, e)) && Waiting(Apply(s, e), p)
  {
    StepKeepsInv(s, e);
    match e
    case M(m) => FgJobFinds(s.table); MainWaitsOn(s, p, m);
    case H(h) => HandlerWaitsOn(s, p, h);
    case K(k) => KernelKeepsMasks(s, k); EntryWaitsOn(s, p);
  }

  lemma MainWaitsOn(s: State, p: int, e: MainEvent)
    requires Waiting(s, p) && Enabled(s, M(e)) && FgJob(s.table) != 0
    ensures Waiting(MainStep(s, e), p)
  {
  }

  lemma EntryWaitsOn(s: State, p: int)
    requires Waiting(s, p) && Enabled(s, K(Delivers(CHLD))) && Report(KernelStep(s, Delivers(CHLD))) == Report(s)
    ensures Waiting(KernelStep(s, Delivers(CHLD)), p)
  {
  }

  lemma HandlerWaitsOn(s: State, p: int, e: HandlerEvent)
    requires Masks(s) && Waiting(s, p) && Enabled(s, H(e)) && WellFormed(s.table)
    ensures Waiting(HandlerStep(s, e), p)
  {
    match e
    case Waits(q) => WaitWaitsOn(s, p, q);
    case Updates => UpdateWaitsOn(s, p, Top(s).phase.pid, Top(s).phase.dead);
    case _ => ReportUnchanged(s, e); HandlerQuiet(s, e);
  }

  lemma WaitWaitsOn(s: State, p: int, q: int)
    requires Waiting(s, p) && Enabled(s, H(Waits(q)))
    ensures Waiting(HandlerStep(s, Waits(q)), p)
  {
  }

  lemma UpdateWaitsOn(s: State, p: int, q: int, dead: bool)
    requires Waiting(s, p) && Enabled(s, H(Updates)) && WellFormed(s.table) && Top(s).phase == Got(q, dead)
    ensures Waiting(HandlerStep(s, Updates), p)
  {
    if !HandlerStep(s, Updates).main.Aborted? {
      UpdateWrites(s, q, dead);
      DeleteJobDeletes(s.table, q);
      SetStateSets(s.table, q, ST);
    }
  }

  lemma {:induction false} WaitsAlong(s: State, p: int, events: seq<Event>)
    requires Inv(s) && Waiting(s, p) && OwnRun(s, events)
    ensures Waiting(Exec(s, events), p)
    decreases |events|
  {
    if events != [] {
      assert events[0] in events && forall e :: e in events[1..] ==> e in events;
      WaitsOn(s, p, events[0]);
      WaitsAlong(Apply(s, events[0]), p, events[1..]);
    }
  }

  // ---- It is stuck ----

  /** On the way to writing down the stop of a stray, or past it. */
  predicate Stuck(s: State, p: int) {
    !s.main.Aborted? ==>
      && p in s.kids.unlisted && |s.table.jobs| == MAXJOBS
      && (if s.main.Suspended? then s.frames == [] && Stray(s.kids, p)
          else s.main.Check? && |s.frames| == 1 && CHLD in s.mask && InHand(s.frames[0], s.kids, p))
  }

  /** The handler has the stray in hand, or will not leave its loop without it. */
  predicate InHand(f: Frame, k: Kids, p: int) {
    && f.kind == CHLD
    && (f.phase == Got(p, false)
        || (Stray(k, p) && (f.phase.Entry? || f.phase.Body? || (f.phase.Got? && f.phase.pid != p))))
  }

  lemma StaysStuck(s: State, p: int, e: Event)
    requires Inv(s) && Stuck(s, p) && Enabled(s, e) && Own(e)
    ensures Inv(Apply(s, e)) && Stuck(Apply(s, e), p)
  {
    StepKeepsInv(s, e);
    if e.H? {
      HandlerAborts(s, e.h);
      HandlerStaysStuck(s, p, e.h);
    } else {
      OnlyEntered(s, p, e);
    }
  }

  lemma OnlyEntered(s: State, p: int, e: Event)
    requires Stuck(s, p) && Enabled(s, e) && Own(e) && !e.H?
    ensures Stuck(Apply(s, e), p)
  {
  }

  lemma HandlerStaysStuck(s: State, p: int, e: HandlerEvent)
    requires Stuck(s, p) && Enabled(s, H(e))
    requires e == Updates && Top(s).phase == Got(p, false) ==> HandlerStep(s, e).main.Aborted?
    ensures Stuck(HandlerStep(s, e), p)
  {
    assert s.frames == [Top(s)];
    match e
    case Updates =>
      if !HandlerStep(s, e).main.Aborted? { UpdateWrites(s, Top(s).phase.pid, Top(s).phase.dead); }
    case Waits(q) => WaitStaysStuck(s, p, q);
    case _ => HandlerQuiet(s, e);
  }

  lemma WaitStaysStuck(s: State, p: int, q: int)
    requires Stuck(s, p) && Enabled(s, H(Waits(q)))
    ensures Stuck(HandlerStep(s, Waits(q)), p)
  {
  }

  lemma {:induction false} StuckAlong(s: State, p: int, events: seq<Event>)
    requires Inv(s) && Stuck(s, p) && OwnRun(s, events)
    ensures Stuck(Exec(s, events), p)
    decreases |events|
  {
    if events != [] {
      assert events[0] in events && forall e :: e in events[1..] ==> e in events;
      StaysStuck(s, p, events[0]);
      StuckAlong(Apply(s, events[0]), p, events[1..]);
    }
  }

  // ---- Exactly when ----

  lemma ItSleepsOn(s: State)
    requires Reachable(s) && s.main.Suspended? && |s.table.jobs| == MAXJOBS && FgJob(s.table) != 0
    requires FgPid(s.table) in s.kids.children && s.kids.children[FgPid(s.table)] == Running
    ensures !WakesUp(s)
  {
    ReachableInv(s);
    OnlyForeground(s);
    var p := FgPid(s.table);
    forall s' | Leads(s, s') ensures !s'.main.Prompt? {
      var events :| OwnRun(s, events) && Exec(s, events) == s';
      WaitsAlong(s, p, events);
    }
  }

  lemma ItIsStuck(s: State, p: int)
    requires Reachable(s) && s.main.Suspended? && Stray(s.kids, p)
    ensures !WakesUp(s)
  {
    ReachableInv(s);
    OnlyForeground(s);
    forall s' | Leads(s, s') ensures !s'.main.Prompt? {
      var events :| OwnRun(s, events) && Exec(s, events) == s';
      StuckAlong(s, p, events);
    }
  }

  /** A suspended shell can come back to its prompt by itself exactly when its foreground
      child no longer runs and no child that was never listed has an unreported stop. */
  lemma WakesUpExactly(s: State)
    requires Reachable(s) && s.main.Suspended?
    ensures |s.table.jobs| == MAXJOBS && FgJob(s.table) != 0 && FgPid(s.table) in s.kids.children
    ensures WakesUp(s) <==> s.kids.children[FgPid(s.table)] != Running && forall p :: !Stray(s.kids, p)
  {
    OnlyForeground(s);
    if s.kids.children[FgPid(s.table)] == Running {
      ItSleepsOn(s);
    } else if p :| Stray(s.kids, p) {
      ItIsStuck(s, p);
    } else {
      ItWakesUp(s);
    }
  }

  lemma {:induction false} ReachesNext(s: State, e: Event)
    requires Reachable(s) && Enabled(s, e)
    ensures Reachable(Apply(s, e))
  {
    var events :| Feasible(INITIAL, events) && Exec(INITIAL, events) == s;
    ExtendRun(INITIAL, events, e);
  }

  /** When the job that is waited for stops or ends, which it may do at any time, the shell
      can come back to its prompt by itself. */
  lemma EndOfJobWakes(s: State, e: KernelEvent)
    requires Reachable(s) && s.main.Suspended? && |s.table.jobs| == MAXJOBS && FgJob(s.table) != 0
    requires e == ChildStops(FgPid(s.table)) || e == ChildExits(FgPid(s.table))
    requires FgPid(s.table) in s.kids.children && s.kids.children[FgPid(s.table)] == Running
    requires forall p :: !Stray(s.kids, p)
    ensures Enabled(s, K(e)) && WakesUp(Apply(s, K(e)))
  {
    var p := FgPid(s.table);
    OnlyForeground(s);
    ReachableInv(s);
    JobsMirrorChildren(s, p);
    ReachesNext(s, K(e));
    var s' := Apply(s, K(e));
    forall q ensures !Stray(s'.kids, q) { assert !Stray(s.kids, q); }
    WakesUpExactly(s');
  }
}
