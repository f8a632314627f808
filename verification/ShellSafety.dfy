/** What every run of the shell keeps: the masks are as the code believes, the job list
    mirrors the children, and no child and no wakeup is lost. */
module ShellSafety {
  import opened JobTable
  import opened Shell

  // ---- Masks ----

  /** The kinds of the running handlers: what the kernel itself has blocked. */
  function Kinds(frames: seq<Frame>): set<Signal> {
    if frames == [] then {} else Kinds(frames[..|frames| - 1]) + {frames[|frames| - 1].kind}
  }

  predicate Between(f: Frame) {
    f.phase.Entry? || f.phase.Exit?
  }

  predicate Busy(m: Main) {
    m.Blocked? || m.Forked? || m.Continued? || m.Check? || m.Unblock?
  }

  /** Which signals are blocked while no handler runs, and where handlers can run. */
  ghost predicate MainMask(mask: set<Signal>, prev: set<Signal>, main: Main, frames: seq<Frame>) {
    && (frames == [] ==> mask == if Busy(main) then ALL else {})
    && (frames != [] ==> main.Prompt? || main.Check?)
    && (main.Suspended? ==> main.saved == ALL)
    && (!main.Prompt? ==> prev == {})
  }

  /** A handler above the frames `below`, interrupting `main`: its signal was not blocked,
      it interrupted nothing that had blocked everything, and the masks it will restore
      are those it found. */
  predicate FrameOk(main: Main, below: seq<Frame>, f: Frame) {
    && (below != [] ==> Between(below[|below| - 1]))
    && f.kind !in Kinds(below)
    && (f.phase.Entry? || f.prev == Kinds(below) + {f.kind})
    && f.resume == (if below != [] then Kinds(below) else if main.Prompt? then {} else ALL)
    && (f.phase.Got? ==> f.kind == CHLD)
  }

  predicate FramesOk(main: Main, frames: seq<Frame>) {
    frames == []
    || (FramesOk(main, frames[..|frames| - 1]) && FrameOk(main, frames[..|frames| - 1], frames[|frames| - 1]))
  }

  /** Only the topmost handler can be past its entry, and then everything is blocked. */
  ghost predicate HandlerMasks(mask: set<Signal>, main: Main, frames: seq<Frame>) {
    && FramesOk(main, frames)
    && (frames != [] ==> mask == if Between(frames[|frames| - 1]) then Kinds(frames) else ALL)
  }

  ghost predicate Masks(s: State) {
    MainMask(s.mask, s.prev, s.main, s.frames) && HandlerMasks(s.mask, s.main, s.frames)
  }

  // ---- Jobs ----

  /** What the SIGCHLD handler has learnt from waitpid and not yet written down. */
  function Report(s: State): Phase {
    if s.frames != [] && Top(s).phase.Got? then Top(s).phase else Body
  }

  /** waitpid has reported the death of `p`, whose job is still listed. */
  predicate Mourned(report: Phase, p: int) {
    report.Got? && report.pid == p && report.dead
  }

  /** waitpid has reported the stop of `p`, whose job does not show it yet. */
  predicate StopSeen(report: Phase, p: int) {
    report.Got? && report.pid == p && !report.dead
  }

  /** The pid that fork has returned and that is not yet listed. */
  predicate InWindow(main: Main, p: int) {
    main.Forked? && main.pid == p && p > 0
  }

  /** A child that ought to be in the job list: not yet done with, and not forked while the
      list was full. */
  predicate Due(k: Kids, main: Main, report: Phase, p: int) {
    (p in k.children || Mourned(report, p)) && !InWindow(main, p) && p !in k.unlisted
  }

  /** The job list as a lookup. */
  function Look(t: Table): int -> JobState
    requires |t.jobs| == MAXJOBS
  {
    (p: int) => StateOf(t, p)
  }

  /** The job list mirrors the unreaped children. */
  ghost predicate Mirror(look: int -> JobState, k: Kids, main: Main, report: Phase) {
    && (forall p :: p in k.children ==> p > 0)
    && (forall p :: look(p) != UNDEF <==> Due(k, main, report, p))
    && (report.Got? ==> (report.pid in k.children <==> !report.dead))
    && (forall p :: InWindow(main, p) ==> p in k.children && p !in k.unlisted)
    && (main.Forked? ==> main.state == FG || main.state == BG)
    && (main.Blocked? && main.command.Fork? ==> main.command.state == FG || main.command.state == BG)
    && (forall p :: p in k.unlisted ==> p in k.children || Mourned(report, p))
  }

  /** A foreground job exists only while the shell waits for it. */
  ghost predicate ForegroundWaits(look: int -> JobState, main: Main) {
    main.Check? || main.Suspended? || forall p :: look(p) != FG
  }

  predicate JustResumed(main: Main, p: int) {
    (main.Forked? && main.pid == p) || (main.Continued? && main.pid == p)
  }

  /** A stop that waitpid has reported shows in the job list. */
  ghost predicate StopsShown(look: int -> JobState, k: Kids, main: Main, report: Phase) {
    forall p :: p in k.children && k.children[p] == Stopped(true) ==>
      && !JustResumed(main, p)
      && (StopSeen(report, p) || look(p) == ST || p in k.unlisted)
  }

  /** A job shown as stopped does not run, unless someone else continued a child. */
  ghost predicate StoppedRest(look: int -> JobState, k: Kids, main: Main, report: Phase) {
    !k.meddled ==>
      forall p :: p in k.children && k.children[p] == Running ==>
        !StopSeen(report, p) && (look(p) == ST ==> main.Continued? && main.pid == p)
  }

  ghost predicate Consistent(look: int -> JobState, k: Kids, main: Main, report: Phase) {
    && Mirror(look, k, main, report) && ForegroundWaits(look, main)
    && StopsShown(look, k, main, report) && StoppedRest(look, k, main, report)
  }

  ghost predicate JobsGood(t: Table, k: Kids, main: Main, report: Phase) {
    WellFormed(t) && Consistent(Look(t), k, main, report)
  }

  // ---- Nothing is lost ----

  /** A SIGCHLD handler that will call waitpid again. */
  predicate StillDraining(f: Frame) {
    f.kind == CHLD && !f.phase.Restore? && !f.phase.Exit?
  }

  /** An unreported stop or exit leaves SIGCHLD pending, or the handler will still call
      waitpid. */
  ghost predicate NoLostChild(children: map<int, Child>, pending: set<Signal>, frames: seq<Frame>) {
    NothingToReport(children) || CHLD in pending || Draining(frames)
  }

  predicate Draining(frames: seq<Frame>) {
    frames != [] && (StillDraining(frames[|frames| - 1]) || Draining(frames[..|frames| - 1]))
  }

  /** The shell suspends itself only for a foreground job. */
  predicate SuspendedForJob(s: State) {
    s.main.Suspended? ==> FgJob(s.table) != 0
  }

  ghost predicate Inv(s: State) {
    !s.main.Aborted? ==>
      && SuspendedForJob(s) && Masks(s) && JobsGood(s.table, s.kids, s.main, Report(s))
      && NoLostChild(s.kids.children, s.pending, s.frames)
  }

  // ---- Masks are kept ----

  lemma SignalInAll(x: Signal)
    ensures x in ALL
  {
    assert x == CHLD || x == INT || x == TSTP;
  }

  lemma PushFrame(below: seq<Frame>, f: Frame, main: Main)
    ensures Kinds(below + [f]) == Kinds(below) + {f.kind}
    ensures FramesOk(main, below + [f]) <==> FramesOk(main, below) && FrameOk(main, below, f)
    ensures Draining(below + [f]) <==> Draining(below) || StillDraining(f)
  {
    assert (below + [f])[..|below|] == below;
  }

  /** Replacing the topmost frame by one of the same signal. */
  lemma RetopKeepsMasks(mask: set<Signal>, main: Main, below: seq<Frame>, f: Frame, f': Frame, mask': set<Signal>)
    requires HandlerMasks(mask, main, below + [f])
    requires f'.kind == f.kind && f'.resume == f.resume && (f'.phase.Got? ==> f.kind == CHLD)
    requires f'.prev == (if f.phase.Entry? then mask else f.prev)
    requires mask' == if Between(f') then f'.prev else ALL
    requires !f'.phase.Entry?
    ensures HandlerMasks(mask', main, below + [f'])
  {
    PushFrame(below, f, main);
    PushFrame(below, f', main);
  }

  lemma MainKeepsMasks(s: State, e: MainEvent)
    requires MainEnabled(s, e) && |s.table.jobs| == MAXJOBS && Masks(s)
    ensures var s' := MainStep(s, e); s'.main.Aborted? || (Masks(s') && Report(s') == Body)
  {
  }

  lemma AllAbsorbs(m: set<Signal>)
    ensures m + ALL == ALL
  {
    forall x | x in m ensures x in ALL { SignalInAll(x); }
  }

  /** Taking the topmost frame away. */
  lemma PopKeepsMasks(mask: set<Signal>, prev: set<Signal>, main: Main, below: seq<Frame>, f: Frame)
    requires MainMask(mask, prev, main, below + [f]) && HandlerMasks(mask, main, below + [f])
    ensures MainMask(f.resume, prev, main, below) && HandlerMasks(f.resume, main, below)
  {
    PushFrame(below, f, main);
    assert FrameOk(main, below, f);
  }

  lemma ReturnKeepsMasks(s: State)
    requires HandlerEnabled(s, Returns) && |s.table.jobs| == MAXJOBS && Masks(s)
    ensures Masks(HandlerStep(s, Returns))
  {
    assert s.frames == Below(s) + [Top(s)];
    PopKeepsMasks(s.mask, s.prev, s.main, Below(s), Top(s));
  }

  lemma HandlerKeepsMasks(s: State, e: HandlerEvent)
    requires HandlerEnabled(s, e) && |s.table.jobs| == MAXJOBS && Masks(s)
    ensures !HandlerStep(s, e).main.Aborted? ==> Masks(HandlerStep(s, e))
  {
    if e.Returns? {
      ReturnKeepsMasks(s);
    } else if !HandlerStep(s, e).main.Aborted? {
      RetopsOnly(s, e);
      StaysKeepsMasks(s, HandlerStep(s, e));
    }
  }

  /** What every handler step but the return does to the frames and the mask. */
  ghost predicate Retopped(s: State, s': State) {
    && s.frames != [] && s'.frames != []
    && s'.frames == Below(s) + [Top(s')] && Top(s').kind == Top(s).kind && Top(s').resume == Top(s).resume
    && Top(s').prev == (if Top(s).phase.Entry? then s.mask else Top(s).prev)
    && !Top(s').phase.Entry? && (Top(s').phase.Got? ==> Top(s).kind == CHLD)
    && s'.mask == (if Top(s).phase.Entry? then s.mask + ALL else if Between(Top(s')) then Top(s').prev else s.mask)
    && (Between(Top(s')) ==> !Between(Top(s))) && (Top(s).phase.Entry? || !Between(Top(s)))
    && s'.main == s.main && s'.prev == s.prev
  }

  lemma RetopsOnly(s: State, e: HandlerEvent)
    requires HandlerEnabled(s, e) && |s.table.jobs| == MAXJOBS && !e.Returns? && !HandlerStep(s, e).main.Aborted?
    ensures Retopped(s, HandlerStep(s, e))
  {
  }

  lemma StaysKeepsMasks(s: State, s': State)
    requires Masks(s) && Retopped(s, s')
    ensures Masks(s')
  {
    AllAbsorbs(s.mask);
    assert s.frames == Below(s) + [Top(s)];
    RetopKeepsMasks(s.mask, s.main, Below(s), Top(s), Top(s'), s'.mask);
  }

  /** Entering a handler for a signal that is not blocked: nothing else has been doing
      anything that needs the signals blocked. */
  lemma EnterKeepsMasks(s: State, x: Signal)
    requires KernelEnabled(s, Delivers(x)) && Masks(s) && !s.main.Aborted?
    ensures Masks(KernelStep(s, Delivers(x))) && Report(KernelStep(s, Delivers(x))) == Report(s)
  {
    SignalInAll(x);
    var s' := KernelStep(s, Delivers(x));
    PushFrame(s.frames, Top(s'), s'.main);
    assert FramesOk(s'.main, s.frames) by { FramesIgnoreWait(s.main, s'.main, s.frames); }
    assert FrameOk(s'.main, s.frames, Top(s'));
  }

  /** Frames look no further at the interrupted loop than whether it is at the prompt. */
  lemma {:induction false} FramesIgnoreWait(main: Main, main': Main, frames: seq<Frame>)
    requires FramesOk(main, frames) && (main.Prompt? <==> main'.Prompt?)
    ensures FramesOk(main', frames)
  {
    if frames != [] { FramesIgnoreWait(main, main', frames[..|frames| - 1]); }
  }

  lemma KernelKeepsMasks(s: State, e: KernelEvent)
    requires KernelEnabled(s, e) && Masks(s) && !s.main.Aborted?
    ensures Masks(KernelStep(s, e)) && Report(KernelStep(s, e)) == Report(s)
  {
    if e.Delivers? { EnterKeepsMasks(s, e.signal); }
  }

  // ---- Jobs are kept ----

  /** One entry of the lookup changes. */
  ghost predicate Writes(look: int -> JobState, look': int -> JobState, p: int, x: JobState) {
    forall q :: look'(q) == if q == p then x else look(q)
  }

  lemma ForkedConsistent(look: int -> JobState, k: Kids, main: Main, pid: int, state: JobState, line: string)
    requires Consistent(look, k, main, Body) && !main.Check? && !main.Suspended? && !main.Continued? && !main.Forked?
    requires pid !in k.children && (state == FG || state == BG)
    ensures Consistent(look, if pid > 0 then k.(children := k.children[pid := Running]) else k,
                       Forked(pid, state, line), Body)
  {
  }

  lemma AddedConsistent(look: int -> JobState, look': int -> JobState, k: Kids, pid: int, state: JobState, line: string)
    requires Consistent(look, k, Forked(pid, state, line), Body) && pid > 0
    requires Writes(look, look', pid, state)
    ensures Consistent(look', k, if state == FG then Check else Unblock, Body)
  {
    assert InWindow(Forked(pid, state, line), pid);
  }

  lemma UnlistedConsistent(look: int -> JobState, k: Kids, pid: int, state: JobState, line: string)
    requires Consistent(look, k, Forked(pid, state, line), Body) && pid > 0
    ensures Consistent(look, k.(unlisted := k.unlisted + {pid}), if state == FG then Check else Unblock, Body)
  {
    assert InWindow(Forked(pid, state, line), pid);
  }

  lemma ResumedConsistent(look: int -> JobState, k: Kids, main: Main, pid: int, bg: bool)
    requires Consistent(look, k, main, Body) && !main.Check? && !main.Suspended? && !main.Continued? && !main.Forked?
    ensures Consistent(look, k.(children := Resume(k.children, pid)), Continued(pid, bg), Body)
  {
  }

  lemma GivenUpConsistent(look: int -> JobState, k: Kids, main: Main)
    requires Consistent(look, k, main, Body) && main.Blocked?
    ensures Consistent(look, k, Unblock, Body)
  {
    assert forall p :: Due(k, Unblock, Body, p) <==> Due(k, main, Body, p);
  }

  lemma StateSetConsistent(look: int -> JobState, look': int -> JobState, k: Kids, pid: int, bg: bool)
    requires Consistent(look, k, Continued(pid, bg), Body) && look(pid) != UNDEF
    requires Writes(look, look', pid, if bg then BG else FG)
    ensures Consistent(look', k, if bg then Unblock else Check, Body)
  {
  }

  lemma WaitedConsistent(look: int -> JobState, k: Kids, main: Main, p: int)
    requires Consistent(look, k, main, Body) && (main.Prompt? || main.Check?)
    requires p in k.children && Reportable(k.children[p])
    ensures var dead := k.children[p].Zombie?;
            Consistent(look, k.(children := if dead then k.children - {p} else k.children[p := Stopped(true)]), main,
                       Got(p, dead))
  {
  }

  lemma WrittenConsistent(look: int -> JobState, look': int -> JobState, k: Kids, main: Main, p: int, dead: bool)
    requires Consistent(look, k, main, Got(p, dead)) && (main.Prompt? || main.Check?)
    requires Writes(look, look', p, if dead then UNDEF else ST) && (!dead ==> look(p) != UNDEF)
    ensures Consistent(look', if dead then k.(unlisted := k.unlisted - {p}) else k, main, Body)
  {
  }

  /** The mirror sees which children there are, not what they do. */
  lemma MirrorIgnoresStates(look: int -> JobState, k: Kids, k': Kids, main: Main, report: Phase)
    requires Mirror(look, k, main, report)
    requires forall q :: q in k'.children <==> q in k.children
    requires k'.unlisted == k.unlisted
    ensures Mirror(look, k', main, report)
  {
    assert forall q :: Due(k', main, report, q) <==> Due(k, main, report, q);
  }

  /** A child moving to an unreported state, or to running after meddling, upsets no
      claim about what the job list shows. */
  lemma ChildMoves(look: int -> JobState, k: Kids, main: Main, report: Phase, p: int, c: Child, k': Kids)
    requires StopsShown(look, k, main, report) && StoppedRest(look, k, main, report) && p in k.children
    requires c != Stopped(true) && (c == Running ==> k'.meddled)
    requires k' == k.(children := k.children[p := c], meddled := k'.meddled) && (k.meddled ==> k'.meddled)
    ensures StopsShown(look, k', main, report) && StoppedRest(look, k', main, report)
  {
  }

  lemma ChildMovesConsistent(look: int -> JobState, k: Kids, main: Main, report: Phase, p: int, c: Child, k': Kids)
    requires Consistent(look, k, main, report) && p in k.children
    requires c != Stopped(true) && (c == Running ==> k'.meddled)
    requires k' == k.(children := k.children[p := c], meddled := k'.meddled) && (k.meddled ==> k'.meddled)
    ensures Consistent(look, k', main, report)
  {
    MirrorIgnoresStates(look, k, k', main, report);
    ChildMoves(look, k, main, report, p, c, k');
  }

  lemma MainKeepsJobs(s: State, e: MainEvent)
    requires MainEnabled(s, e) && JobsGood(s.table, s.kids, s.main, Body)
    ensures var s' := MainStep(s, e); !s'.main.Aborted? ==> JobsGood(s'.table, s'.kids, s'.main, Body)
  {
    match e
    case ForkReturns(pid) => ForkReturnsKeeps(s, pid);
    case AddsJob => AddsJobKeeps(s);
    case LooksUp => LooksUpKeeps(s);
    case SetsState => SetsStateKeeps(s);
    case _ => QuietStepKeeps(s, e);
  }

  lemma ForkReturnsKeeps(s: State, pid: int)
    requires MainEnabled(s, ForkReturns(pid)) && JobsGood(s.table, s.kids, s.main, Body)
    ensures var s' := MainStep(s, ForkReturns(pid)); JobsGood(s'.table, s'.kids, s'.main, Body)
  {
    ForkedConsistent(Look(s.table), s.kids, s.main, pid, s.main.command.state, s.main.command.line);
  }

  /** The steps that touch neither the job list nor the children. */
  lemma QuietStepKeeps(s: State, e: MainEvent)
    requires MainEnabled(s, e) && (e.ReadCommand? || e.TestsForeground? || e.RestoresMask?)
    requires JobsGood(s.table, s.kids, s.main, Body)
    ensures var s' := MainStep(s, e); s'.table == s.table && s'.kids == s.kids
    ensures JobsGood(s.table, s.kids, MainStep(s, e).main, Body)
  {
    FgJobFinds(s.table);
    assert forall q :: Look(s.table)(q) == StateOf(s.table, q);
    QuietConsistent(Look(s.table), s.kids, s.main, MainStep(s, e).main);
  }

  lemma QuietConsistent(look: int -> JobState, k: Kids, main: Main, main': Main)
    requires Consistent(look, k, main, Body)
    requires !main.Forked? && !main.Continued? && !main'.Forked? && !main'.Continued?
    requires main'.Blocked? && main'.command.Fork? ==> main'.command.state == FG || main'.command.state == BG
    requires main'.Check? || main'.Suspended? || forall p :: look(p) != FG
    ensures Consistent(look, k, main', Body)
  {
    assert forall p :: Due(k, main', Body, p) <==> Due(k, main, Body, p);
  }

  /** Adding the job aborts exactly when fork had failed. */
  lemma AddsJobKeeps(s: State)
    requires MainEnabled(s, AddsJob) && JobsGood(s.table, s.kids, s.main, Body)
    ensures var s' := MainStep(s, AddsJob);
            && (s'.main.Aborted? <==> s.main.pid <= 0)
            && (!s'.main.Aborted? ==> JobsGood(s'.table, s'.kids, s'.main, Body))
  {
    var t, p, st, line := s.table, s.main.pid, s.main.state, s.main.line;
    if p > 0 {
      assert InWindow(s.main, p);
      FgJobFinds(t);
      assert forall q :: Look(t)(q) == StateOf(t, q);
      assert Look(t)(p) == UNDEF;
      AddJobAdds(t, p, st, line);
      if t.nextjid > MAXJOBS {
        UnlistedConsistent(Look(t), s.kids, p, st, line);
      } else {
        AddedConsistent(Look(t), Look(AddJob(t, p, st, line).table), s.kids, p, st, line);
      }
    }
  }

  /** The lookup of bg or fg aborts exactly for bg with a pid that has no job. */
  lemma LooksUpKeeps(s: State)
    requires MainEnabled(s, LooksUp) && JobsGood(s.table, s.kids, s.main, Body)
    ensures var s', c := MainStep(s, LooksUp), s.main.command;
            && (s'.main.Aborted? <==> c.background && c.target.ByPid? && StateOf(s.table, c.target.pid) == UNDEF)
            && (!s'.main.Aborted? ==> JobsGood(s'.table, s'.kids, s'.main, Body))
  {
    var target, bg := s.main.command.target, s.main.command.background;
    TargetFound(s.table, target);
    ResumedConsistent(Look(s.table), s.kids, s.main, TargetPid(s.table, target), bg);
    GivenUpConsistent(Look(s.table), s.kids, s.main);
  }

  /** A jid names a job exactly when its target pid is nonzero, and then that pid has it. */
  lemma TargetFound(t: Table, target: Target)
    requires WellFormed(t)
    ensures target.ByJid? && TargetPid(t, target) != 0 ==> JobFromPid(t, TargetPid(t, target)) != 0
    ensures target.ByPid? ==> (JobFromPid(t, target.pid) == 0 <==> StateOf(t, target.pid) == UNDEF)
  {
    if target.ByJid? {
      if JobExists(t, target.jid) { SlotFound(t, target.jid - 1); }
    } else {
      PidFound(t, target.pid);
    }
  }

  /** Setting the state aborts exactly for a pid that has no job. */
  lemma SetsStateKeeps(s: State)
    requires MainEnabled(s, SetsState) && JobsGood(s.table, s.kids, s.main, Body)
    ensures var s' := MainStep(s, SetsState);
            && (s'.main.Aborted? <==> StateOf(s.table, s.main.pid) == UNDEF)
            && (!s'.main.Aborted? ==> JobsGood(s'.table, s'.kids, s'.main, Body))
  {
    var t, p, bg := s.table, s.main.pid, s.main.background;
    FgJobFinds(t);
    assert forall q :: Look(t)(q) == StateOf(t, q);
    SetStateSets(t, p, if bg then BG else FG);
    var r := SetState(t, JobFromPid(t, p), if bg then BG else FG);
    if r.Done? {
      StateSetConsistent(Look(t), Look(r.table), s.kids, p, bg);
    }
  }

  /** The handler writes the report down; it aborts exactly on the stop of a child that
      has no job. */
  lemma UpdatesKeeps(t: Table, k: Kids, main: Main, p: int, dead: bool)
    requires JobsGood(t, k, main, Got(p, dead)) && (main.Prompt? || main.Check?)
    ensures var r := SetState(t, JobFromPid(t, p), ST);
            !dead ==> (r.Abort? <==> StateOf(t, p) == UNDEF) && (r.Done? ==> JobsGood(r.table, k, main, Body))
    ensures var r := DeleteJob(t, JobFromPid(t, p));
            dead ==> r.Done? && JobsGood(r.table, k.(unlisted := k.unlisted - {p}), main, Body)
  {
    if dead {
      DeleteJobDeletes(t, p);
      WrittenConsistent(Look(t), Look(DeleteJob(t, JobFromPid(t, p)).table), k, main, p, dead);
    } else {
      SetStateSets(t, p, ST);
      var r := SetState(t, JobFromPid(t, p), ST);
      if r.Done? {
        WrittenConsistent(Look(t), Look(r.table), k, main, p, dead);
      }
    }
  }

  lemma HandlerKeepsJobs(s: State, e: HandlerEvent)
    requires HandlerEnabled(s, e) && Masks(s) && JobsGood(s.table, s.kids, s.main, Report(s))
    ensures var s' := HandlerStep(s, e); !s'.main.Aborted? ==> JobsGood(s'.table, s'.kids, s'.main, Report(s'))
  {
    match e
    case Waits(p) => WaitStepKeeps(s, p);
    case Updates => UpdateStepKeeps(s);
    case _ => ReportUnchanged(s, e); HandlerQuiet(s, e);
  }

  lemma WaitStepKeeps(s: State, p: int)
    requires HandlerEnabled(s, Waits(p)) && Masks(s) && JobsGood(s.table, s.kids, s.main, Report(s))
    ensures var s' := HandlerStep(s, Waits(p)); JobsGood(s'.table, s'.kids, s'.main, Report(s'))
  {
    WaitedConsistent(Look(s.table), s.kids, s.main, p);
  }

  lemma UpdateStepKeeps(s: State)
    requires HandlerEnabled(s, Updates) && Masks(s) && JobsGood(s.table, s.kids, s.main, Report(s))
    ensures var s' := HandlerStep(s, Updates);
            !s'.main.Aborted? ==> JobsGood(s'.table, s'.kids, s'.main, Report(s'))
  {
    var p, dead := Top(s).phase.pid, Top(s).phase.dead;
    assert Report(s) == Got(p, dead);
    UpdatesKeeps(s.table, s.kids, s.main, p, dead);
    if !HandlerStep(s, Updates).main.Aborted? { UpdateWrites(s, p, dead); }
  }

  /** What writing a report down leaves. */
  lemma UpdateWrites(s: State, p: int, dead: bool)
    requires HandlerEnabled(s, Updates) && |s.table.jobs| == MAXJOBS && Top(s).phase == Got(p, dead)
    requires !HandlerStep(s, Updates).main.Aborted?
    ensures var s' := HandlerStep(s, Updates);
            && Report(s') == Body && s'.main == s.main
            && s'.kids == (if dead then s.kids.(unlisted := s.kids.unlisted - {p}) else s.kids)
            && if dead then DeleteJob(s.table, JobFromPid(s.table, p)).Done?
                            && s'.table == DeleteJob(s.table, JobFromPid(s.table, p)).table
               else SetState(s.table, JobFromPid(s.table, p), ST).Done?
                    && s'.table == SetState(s.table, JobFromPid(s.table, p), ST).table
  {
  }

  lemma HandlerQuiet(s: State, e: HandlerEvent)
    requires HandlerEnabled(s, e) && |s.table.jobs| == MAXJOBS && !e.Waits? && !e.Updates?
    ensures var s' := HandlerStep(s, e); s'.table == s.table && s'.kids == s.kids && s'.main == s.main
  {
  }

  /** A handler is entered only above handlers that have nothing in hand. */
  lemma BelowHasNothing(main: Main, below: seq<Frame>, f: Frame)
    requires FramesOk(main, below + [f])
    ensures below != [] ==> !below[|below| - 1].phase.Got?
  {
    PushFrame(below, f, main);
  }

  lemma ReportUnchanged(s: State, e: HandlerEvent)
    requires HandlerEnabled(s, e) && Masks(s) && |s.table.jobs| == MAXJOBS && !e.Waits? && !e.Updates?
    ensures Report(HandlerStep(s, e)) == Report(s) == Body
  {
    if e.Returns? {
      assert s.frames == Below(s) + [Top(s)];
      BelowHasNothing(s.main, Below(s), Top(s));
    } else {
      StepStaysOnTop(s, e);
    }
  }

  lemma StepStaysOnTop(s: State, e: HandlerEvent)
    requires HandlerEnabled(s, e) && |s.table.jobs| == MAXJOBS && !e.Waits? && !e.Updates? && !e.Returns?
    ensures HandlerStep(s, e).frames != [] && !Top(HandlerStep(s, e)).phase.Got?
  {
  }

  lemma KernelKeepsJobs(s: State, e: KernelEvent)
    requires KernelEnabled(s, e) && JobsGood(s.table, s.kids, s.main, Report(s))
    requires MainMask(s.mask, s.prev, s.main, s.frames)
    requires !s.main.Aborted?
    ensures JobsGood(KernelStep(s, e).table, KernelStep(s, e).kids, KernelStep(s, e).main, Report(s))
  {
    var look, k' := Look(s.table), KernelStep(s, e).kids;
    match e
    case ChildStops(p) => ChildMovesConsistent(look, s.kids, s.main, Report(s), p, Stopped(false), k');
    case ChildExits(p) => ChildMovesConsistent(look, s.kids, s.main, Report(s), p, Zombie, k');
    case ChildContinues(p) => ChildMovesConsistent(look, s.kids, s.main, Report(s), p, Running, k');
    case Delivers(x) =>
    case SignalArrives(x) =>
  }

  // ---- Nothing gets lost ----

  lemma MainKeepsChildren(s: State, e: MainEvent)
    requires MainEnabled(s, e) && |s.table.jobs| == MAXJOBS && NoLostChild(s.kids.children, s.pending, s.frames)
    ensures var s' := MainStep(s, e); NoLostChild(s'.kids.children, s'.pending, s'.frames)
  {
  }

  lemma HandlerKeepsChildren(s: State, e: HandlerEvent)
    requires HandlerEnabled(s, e) && |s.table.jobs| == MAXJOBS
    requires NoLostChild(s.kids.children, s.pending, s.frames)
    ensures var s' := HandlerStep(s, e); s'.main.Aborted? || NoLostChild(s'.kids.children, s'.pending, s'.frames)
  {
    var s' := HandlerStep(s, e);
    TopFrameDrains(s, s);
    if !s'.main.Aborted? && !e.Returns? {
      TopFrameDrains(s', s);
    }
    if e.Waits? {
      assert Draining(s'.frames);
    } else if !e.Drained? && !s'.main.Aborted? {
      assert s'.kids.children == s.kids.children;
      assert Draining(s.frames) ==> Draining(s'.frames);
    }
  }

  lemma TopFrameDrains(s: State, s0: State)
    requires s.frames != [] && s0.frames != [] && s.frames == Below(s0) + [Top(s)]
    ensures Draining(s.frames) <==> Draining(Below(s0)) || StillDraining(Top(s))
  {
    PushFrame(Below(s0), Top(s), s.main);
  }

  lemma KernelKeepsChildren(s: State, e: KernelEvent)
    requires KernelEnabled(s, e) && NoLostChild(s.kids.children, s.pending, s.frames)
    ensures var s' := KernelStep(s, e); NoLostChild(s'.kids.children, s'.pending, s'.frames)
  {
    if e.Delivers? {
      PushFrame(s.frames, Top(KernelStep(s, e)), KernelStep(s, e).main);
    }
  }

  // ---- Every run ----

  lemma InitInv()
    ensures Inv(INITIAL)
  {
    InitStates();
    EmptyConsistent(Look(InitTable()));
  }

  lemma EmptyConsistent(look: int -> JobState)
    requires forall p :: look(p) == UNDEF
    ensures Consistent(look, INITIAL.kids, Prompt, Body)
  {
  }

  lemma StepKeepsInv(s: State, e: Event)
    requires Inv(s) && Enabled(s, e)
    ensures Inv(Apply(s, e))
  {
    match e
    case M(m) => MainKeepsMasks(s, m); MainKeepsJobs(s, m); MainKeepsChildren(s, m);
    case H(h) => HandlerKeepsMasks(s, h); HandlerKeepsJobs(s, h); HandlerKeepsChildren(s, h);
    case K(k) => KernelKeepsMasks(s, k); KernelKeepsJobs(s, k); KernelKeepsChildren(s, k);
  }

  /** The invariant holds after every finite run, whatever the interleaving. */
  lemma {:induction false} RunKeepsInv(s: State, events: seq<Event>)
    requires Inv(s) && Feasible(s, events)
    ensures Inv(Exec(s, events))
    decreases |events|
  {
    if events != [] {
      StepKeepsInv(s, events[0]);
      RunKeepsInv(Apply(s, events[0]), events[1..]);
    }
  }
}
