/** The promises of the shell, read off the invariant for every reachable state. */
module ShellTheorems {
  import opened JobTable
  import opened Shell
  import opened ShellSafety

  /** Some run from the start of the shell leads to `s`. */
  ghost predicate Reachable(s: State) {
    exists events :: Feasible(INITIAL, events) && Exec(INITIAL, events) == s
  }

  lemma ReachableInv(s: State)
    requires Reachable(s)
    ensures Inv(s)
  {
    var events :| Feasible(INITIAL, events) && Exec(INITIAL, events) == s;
    InitInv();
    RunKeepsInv(INITIAL, events);
  }

  /** The pid of the foreground job. */
  function FgPid(t: Table): int
    requires |t.jobs| == MAXJOBS && FgJob(t) != 0
  {
    t.jobs[FgJob(t) - 1].pid
  }

  // ---- Wakeups ----

  /** No lost wakeup: while the shell is suspended there is a foreground job, and either its
      child runs, or SIGCHLD is pending and can be delivered at once. */
  lemma NoLostWakeup(s: State)
    requires Reachable(s) && s.main.Suspended?
    ensures |s.table.jobs| == MAXJOBS && FgJob(s.table) != 0 && FgPid(s.table) in s.kids.children
    ensures s.kids.children[FgPid(s.table)] == Running || Enabled(s, K(Delivers(CHLD)))
  {
    ReachableInv(s);
    assert s.frames == [];
    ForegroundIsChild(s.table, s.kids, s.main);
    ForegroundRunsOrReports(s, FgPid(s.table));
  }

  /** Without a handler, a child in the foreground runs, or SIGCHLD is pending for it. */
  lemma ForegroundRunsOrReports(s: State, p: int)
    requires Inv(s) && !s.main.Aborted? && s.frames == [] && StateOf(s.table, p) == FG && p in s.kids.children
    ensures s.kids.children[p] == Running || CHLD in s.pending
  {
    assert Look(s.table)(p) == FG;
    assert s.kids.children[p] != Stopped(true);
    assert !Draining(s.frames);
  }

  /** No lost child: in any state a stop or exit not yet reported has SIGCHLD pending or a
      handler that will still ask. */
  lemma NothingForgotten(s: State, p: int)
    requires Reachable(s) && !s.main.Aborted? && p in s.kids.children && Reportable(s.kids.children[p])
    ensures CHLD in s.pending || Draining(s.frames)
  {
    ReachableInv(s);
  }

  // ---- The job list ----

  /** Outside the window between fork and add_job, and between two rounds of the handler,
      the jobs are exactly the unreaped children that were listed. */
  lemma JobsMirrorChildren(s: State, p: int)
    requires Reachable(s) && !s.main.Aborted? && !s.main.Forked? && Report(s) == Body
    ensures WellFormed(s.table)
    ensures StateOf(s.table, p) != UNDEF <==> p in s.kids.children && p !in s.kids.unlisted
  {
    ReachableInv(s);
    assert Look(s.table)(p) == StateOf(s.table, p);
    assert Due(s.kids, s.main, Body, p) <==> p in s.kids.children && p !in s.kids.unlisted;
  }

  /** No job outlives its reaping: a dead child still listed is the one in the handler's hand. */
  lemma ReapedIsGone(s: State, p: int)
    requires Reachable(s) && !s.main.Aborted? && p !in s.kids.children && !Mourned(Report(s), p)
    ensures |s.table.jobs| == MAXJOBS && StateOf(s.table, p) == UNDEF
  {
    ReachableInv(s);
    assert Look(s.table)(p) == StateOf(s.table, p);
  }

  /** The handler looks up no unknown pid: whenever it is about to write a report down, the
      reported pid has a job, dead or stopped, unless it was forked while the list was full. */
  lemma HandlerKnowsPid(s: State)
    requires Reachable(s) && Enabled(s, H(Updates))
    ensures JobFromPid(s.table, Top(s).phase.pid) != 0 <==> Top(s).phase.pid !in s.kids.unlisted
  {
    ReachableInv(s);
    ReportedIsListed(s.table, s.kids, s.main, Top(s).phase);
  }

  lemma ReportedIsListed(t: Table, k: Kids, main: Main, report: Phase)
    requires JobsGood(t, k, main, report) && report.Got? && !main.Forked?
    ensures JobFromPid(t, report.pid) != 0 <==> report.pid !in k.unlisted
  {
    var p := report.pid;
    PidFound(t, p);
    assert Look(t)(p) == StateOf(t, p);
    assert Due(k, main, report, p) <==> p !in k.unlisted;
  }

  /** The same one step earlier, of every child that waitpid can report. */
  lemma WaitedPidIsKnown(s: State, p: int)
    requires Reachable(s) && Enabled(s, H(Waits(p)))
    ensures JobFromPid(s.table, p) != 0 <==> p !in s.kids.unlisted
  {
    ReachableInv(s);
    JobsMirrorChildren(s, p);
    PidFound(s.table, p);
  }

  /** At most one job is in the foreground. */
  lemma ForegroundIsUnique(s: State, p: int, q: int)
    requires Reachable(s) && !s.main.Aborted?
    ensures WellFormed(s.table)
    ensures StateOf(s.table, p) == FG && StateOf(s.table, q) == FG ==> p == q
  {
    ReachableInv(s);
    if StateOf(s.table, p) == FG && StateOf(s.table, q) == FG {
      OneForeground(s.table, p);
      OneForeground(s.table, q);
    }
  }

  /** No job is in the foreground while the shell is at the prompt. */
  lemma PromptHasNoForeground(s: State, p: int)
    requires Reachable(s) && s.main.Prompt?
    ensures |s.table.jobs| == MAXJOBS && StateOf(s.table, p) != FG && FgJob(s.table) == 0
  {
    ReachableInv(s);
    FgJobFinds(s.table);
    assert forall q :: Look(s.table)(q) == StateOf(s.table, q);
  }

  /** Unless someone else continues a child, a job shown as stopped is not running outside
      the step that restarts it; and a stop that waitpid has reported is always shown. */
  lemma StatesTellTheTruth(s: State, p: int)
    requires Reachable(s) && !s.main.Aborted? && p in s.kids.children && p !in s.kids.unlisted
    ensures |s.table.jobs| == MAXJOBS
    ensures StateOf(s.table, p) == ST && !s.kids.meddled && !s.main.Continued? ==> s.kids.children[p] != Running
    ensures s.kids.children[p] == Stopped(true) && Report(s) == Body ==> StateOf(s.table, p) == ST
  {
    ReachableInv(s);
    assert Look(s.table)(p) == StateOf(s.table, p);
  }

  // ---- Signals ----

  /** Every step that reads or writes the job list has all three signals blocked. */
  lemma JobListAccessIsMasked(s: State, e: Event)
    requires Reachable(s) && Enabled(s, e)
    requires e == M(AddsJob) || e == M(LooksUp) || e == M(SetsState) || e == M(TestsForeground)
             || e == H(Updates) || e == H(Kills)
    ensures s.mask == ALL
  {
    ReachableInv(s);
  }

  /** The keyboard handlers signal only a child that has not been reaped, so never a
      stranger that was given its pid. */
  lemma KillHitsOwnChild(s: State)
    requires Reachable(s) && Enabled(s, H(Kills)) && FgJob(s.table) != 0
    ensures FgPid(s.table) in s.kids.children
  {
    ReachableInv(s);
    assert Report(s) == Body;
    ForegroundIsChild(s.table, s.kids, s.main);
  }

  lemma ForegroundIsChild(t: Table, k: Kids, main: Main)
    requires JobsGood(t, k, main, Body) && FgJob(t) != 0
    ensures FgPid(t) in k.children && StateOf(t, FgPid(t)) == FG
  {
    FgJobFinds(t);
    assert Look(t)(FgPid(t)) == FG;
    assert Due(k, main, Body, FgPid(t));
  }

  /** The outside world is free: as long as the shell lives, any signal may arrive, a running
      child may stop, a stopped one may be continued, and either may end; a stop or an end
      makes SIGCHLD pending. */
  lemma OutsideIsFree(s: State, p: int, x: Signal)
    requires Reachable(s) && !s.main.Aborted?
    ensures Enabled(s, K(SignalArrives(x))) && Apply(s, K(SignalArrives(x))) == s.(pending := s.pending + {x})
    ensures p in s.kids.children && s.kids.children[p] == Running ==>
              Enabled(s, K(ChildStops(p))) && Moved(s, Apply(s, K(ChildStops(p))), p, Stopped(false), {CHLD})
    ensures p in s.kids.children && s.kids.children[p].Stopped? ==>
              Enabled(s, K(ChildContinues(p))) && Moved(s, Apply(s, K(ChildContinues(p))), p, Running, {})
    ensures p in s.kids.children && s.kids.children[p] != Zombie ==>
              Enabled(s, K(ChildExits(p))) && Moved(s, Apply(s, K(ChildExits(p))), p, Zombie, {CHLD})
  {
    ReachableInv(s);
  }

  ghost predicate Moved(s: State, s': State, p: int, c: Child, pending: set<Signal>) {
    && s'.kids.children == s.kids.children[p := c] && s'.kids.unlisted == s.kids.unlisted
    && s' == s.(kids := s'.kids, pending := s.pending + pending)
  }

  // ---- When the shell aborts ----

  /** The fatal errors of the job list are reached exactly by a failed fork, by bg or fg on
      a pid without a job, and by the stop of a child that was never listed. */
  lemma AbortsExactly(s: State, e: Event)
    requires Reachable(s) && Enabled(s, e)
    ensures Apply(s, e).main.Aborted? <==>
              || (e == M(AddsJob) && s.main.pid <= 0)
              || (e == M(LooksUp) && s.main.command.background && s.main.command.target.ByPid?
                  && StateOf(s.table, s.main.command.target.pid) == UNDEF)
              || (e == M(SetsState) && StateOf(s.table, s.main.pid) == UNDEF)
              || (e == H(Updates) && !Top(s).phase.dead && Top(s).phase.pid in s.kids.unlisted)
  {
    ReachableInv(s);
    match e
    case M(m) => MainAborts(s, m);
    case H(h) => HandlerAborts(s, h);
    case K(k) => KernelAborts(s, k);
  }

  lemma KernelAborts(s: State, e: KernelEvent)
    requires Enabled(s, K(e))
    ensures !KernelStep(s, e).main.Aborted?
  {
  }

  lemma MainAborts(s: State, e: MainEvent)
    requires Inv(s) && Enabled(s, M(e))
    ensures MainStep(s, e).main.Aborted? <==>
              || (e == AddsJob && s.main.pid <= 0)
              || (e == LooksUp && s.main.command.background && s.main.command.target.ByPid?
                  && StateOf(s.table, s.main.command.target.pid) == UNDEF)
              || (e == SetsState && StateOf(s.table, s.main.pid) == UNDEF)
  {
    match e
    case AddsJob => AddsJobKeeps(s);
    case LooksUp => LooksUpKeeps(s);
    case SetsState => SetsStateKeeps(s);
    case _ =>
  }

  lemma HandlerAborts(s: State, e: HandlerEvent)
    requires Inv(s) && Enabled(s, H(e))
    ensures HandlerStep(s, e).main.Aborted?
            <==> e == Updates && !Top(s).phase.dead && Top(s).phase.pid in s.kids.unlisted
  {
    if e.Updates? { UpdateAborts(s.table, s.kids, s.main, Top(s).phase.pid, Top(s).phase.dead); }
  }

  lemma UpdateAborts(t: Table, k: Kids, main: Main, p: int, dead: bool)
    requires JobsGood(t, k, main, Got(p, dead)) && (main.Prompt? || main.Check?)
    ensures DeleteJob(t, JobFromPid(t, p)).Done?
    ensures !dead ==> (SetState(t, JobFromPid(t, p), ST).Abort? <==> p in k.unlisted)
  {
    assert Look(t)(p) == StateOf(t, p);
    assert Due(k, main, Got(p, dead), p) <==> p !in k.unlisted;
    DeleteJobDeletes(t, p);
    SetStateSets(t, p, ST);
  }

  /** What a user and a system must do for the shell to be safe: forks succeed, at most
      MAXJOBS jobs are listed at a time, and bg and fg by pid name an existing job. */
  predicate Reasonable(s: State, e: Event)
    requires Enabled(s, e)
  {
    match e
    case M(ForkReturns(pid)) => pid > 0
    case M(AddsJob) => s.table.nextjid <= MAXJOBS
    case M(LooksUp) => s.main.command.target.ByPid? ==> StateOf(s.table, s.main.command.target.pid) != UNDEF
    case _ => true
  }

  ghost predicate ReasonableRun(s: State, events: seq<Event>)
    decreases |events|
  {
    events == []
    || (Enabled(s, events[0]) && Reasonable(s, events[0]) && ReasonableRun(Apply(s, events[0]), events[1..]))
  }

  ghost predicate OnTrack(s: State) {
    && Inv(s) && !s.main.Aborted? && s.kids.unlisted == {}
    && (s.main.Forked? ==> s.main.pid > 0)
    && (s.main.Continued? ==> StateOf(s.table, s.main.pid) != UNDEF)
  }

  lemma StepStaysOnTrack(s: State, e: Event)
    requires OnTrack(s) && Enabled(s, e) && Reasonable(s, e)
    ensures OnTrack(Apply(s, e))
  {
    StepKeepsInv(s, e);
    match e
    case M(m) => MainStaysOnTrack(s, m);
    case H(h) => HandlerStaysOnTrack(s, h);
    case K(k) => KernelStaysOnTrack(s, k);
  }

  /** Where the read/eval loop is and which children are listed, as far as it matters. */
  lemma HandlerStaysOnTrack(s: State, e: HandlerEvent)
    requires OnTrack(s) && Enabled(s, H(e))
    ensures var s' := HandlerStep(s, e);
            && !s'.main.Aborted? && s'.kids.unlisted == {} && !s'.main.Forked? && !s'.main.Continued?
  {
    assert s.main.Prompt? || s.main.Check?;
    if e.Updates? { UpdateStaysOnTrack(s); }
  }

  lemma KernelStaysOnTrack(s: State, e: KernelEvent)
    requires OnTrack(s) && Enabled(s, K(e))
    ensures var s' := KernelStep(s, e);
            && !s'.main.Aborted? && s'.kids.unlisted == {} && s'.table == s.table
            && (s'.main == s.main || s'.main == Check)
  {
  }

  lemma MainStaysOnTrack(s: State, e: MainEvent)
    requires OnTrack(s) && Enabled(s, M(e)) && Reasonable(s, M(e))
    ensures var s' := MainStep(s, e);
            && !s'.main.Aborted? && s'.kids.unlisted == {}
            && (s'.main.Forked? ==> s'.main.pid > 0)
            && (s'.main.Continued? ==> StateOf(s'.table, s'.main.pid) != UNDEF)
  {
    match e
    case AddsJob => AddsJobKeeps(s);
    case LooksUp => LooksUpStaysOnTrack(s);
    case SetsState => SetsStateKeeps(s);
    case _ =>
  }

  lemma LooksUpStaysOnTrack(s: State)
    requires OnTrack(s) && Enabled(s, M(LooksUp)) && Reasonable(s, M(LooksUp))
    ensures var s' := MainStep(s, LooksUp);
            && !s'.main.Aborted? && s'.kids.unlisted == {} && !s'.main.Forked?
            && (s'.main.Continued? ==> StateOf(s'.table, s'.main.pid) != UNDEF)
  {
    LooksUpKeeps(s);
    TargetKnown(s.table, s.main.command.target);
  }

  lemma UpdateStaysOnTrack(s: State)
    requires OnTrack(s) && Enabled(s, H(Updates))
    ensures !HandlerStep(s, Updates).main.Aborted?
  {
    var p := Top(s).phase.pid;
    assert Look(s.table)(p) == StateOf(s.table, p);
    assert Due(s.kids, s.main, Report(s), p);
    DeleteJobDeletes(s.table, p);
    SetStateSets(s.table, p, ST);
  }

  lemma TargetKnown(t: Table, target: Target)
    requires WellFormed(t) && (target.ByPid? ==> StateOf(t, target.pid) != UNDEF)
    ensures target.ByPid? || TargetPid(t, target) != 0 ==> StateOf(t, TargetPid(t, target)) != UNDEF
  {
    if target.ByJid? && JobExists(t, target.jid) { SlotFound(t, target.jid - 1); }
  }

  /** A reasonable run never aborts, and lists every child. */
  lemma {:induction false} ReasonableRunsAreSafe(s: State, events: seq<Event>)
    requires OnTrack(s) && ReasonableRun(s, events)
    ensures Feasible(s, events) && OnTrack(Exec(s, events))
    decreases |events|
  {
    if events != [] {
      StepStaysOnTrack(s, events[0]);
      ReasonableRunsAreSafe(Apply(s, events[0]), events[1..]);
    }
  }

  lemma StartIsOnTrack()
    ensures OnTrack(INITIAL)
  {
    InitInv();
  }

  /** From the start of the shell: a reasonable run can be played, never aborts, lists every
      child, and its handler never looks up a pid without a job. */
  lemma ReasonableShellIsSafe(events: seq<Event>)
    requires ReasonableRun(INITIAL, events)
    ensures Feasible(INITIAL, events)
    ensures var s := Exec(INITIAL, events);
            && !s.main.Aborted? && s.kids.unlisted == {}
            && (Enabled(s, H(Updates)) ==> JobFromPid(s.table, Top(s).phase.pid) != 0)
  {
    StartIsOnTrack();
    ReasonableRunsAreSafe(INITIAL, events);
    var s := Exec(INITIAL, events);
    if Enabled(s, H(Updates)) { ReportedIsListed(s.table, s.kids, s.main, Top(s).phase); }
  }

  // ---- The full job list ----

  lemma {:induction false} ExtendRun(s: State, events: seq<Event>, e: Event)
    requires Feasible(s, events) && Enabled(Exec(s, events), e)
    ensures Feasible(s, events + [e]) && Exec(s, events + [e]) == Apply(Exec(s, events), e)
    decreases |events|
  {
    var longer := events + [e];
    if events == [] {
      assert longer[0] == e && longer[1..] == [];
    } else {
      assert longer[0] == events[0] && longer[1..] == events[1..] + [e];
      ExtendRun(Apply(s, events[0]), events[1..], e);
    }
  }

  /** A run whose forks all succeed and that never uses bg or fg. */
  ghost predicate PlainRun(events: seq<Event>) {
    && Feasible(INITIAL, events)
    && forall e :: e in events ==> e != M(LooksUp) && (e.M? && e.m.ForkReturns? ==> e.m.pid > 0)
  }

  lemma PlainRunInv(events: seq<Event>)
    requires PlainRun(events)
    ensures Inv(Exec(INITIAL, events))
    ensures !Exec(INITIAL, events).main.Aborted? ==> |Exec(INITIAL, events).table.jobs| == MAXJOBS
  {
    InitInv();
    RunKeepsInv(INITIAL, events);
  }

  lemma Plays(events: seq<Event>, e: Event) returns (longer: seq<Event>)
    requires PlainRun(events) && Enabled(Exec(INITIAL, events), e)
    requires e != M(LooksUp) && (e.M? && e.m.ForkReturns? ==> e.m.pid > 0)
    ensures longer == events + [e] && PlainRun(longer)
    ensures var s' := Exec(INITIAL, longer);
            s' == Apply(Exec(INITIAL, events), e) && (!s'.main.Aborted? ==> |s'.table.jobs| == MAXJOBS)
  {
    ExtendRun(INITIAL, events, e);
    longer := events + [e];
    PlainRunInv(longer);
  }

  /** Between commands, with background jobs running as pids 1 .. n, as many as fit listed. */
  ghost predicate Loaded(s: State, n: nat) {
    && s.main == Prompt && s.frames == [] && s.pending == {} && s.mask == {}
    && |s.table.jobs| == MAXJOBS && s.table.nextjid == (if n < MAXJOBS then n else MAXJOBS) + 1
    && (forall p :: p in s.kids.unlisted <==> MAXJOBS < p <= n)
    && (forall p :: p in s.kids.children <==> 1 <= p <= n)
    && (forall p :: p in s.kids.children ==> s.kids.children[p] == Running)
  }

  /** What adding a background job does, list full or not. */
  lemma AddsBackground(s: State)
    requires Inv(s) && Enabled(s, M(AddsJob)) && s.main.pid > 0 && s.main.state == BG
    ensures var full := s.table.nextjid > MAXJOBS;
            Listed(s, MainStep(s, AddsJob), if full then s.table.nextjid else s.table.nextjid + 1,
                   if full then s.kids.unlisted + {s.main.pid} else s.kids.unlisted)
  {
    AddsJobKeeps(s);
    assert s.table.nextjid >= 1;
  }

  ghost predicate Listed(s: State, s': State, nextjid: nat, unlisted: set<int>) {
    && s'.main == Unblock && s'.frames == [] && s'.pending == s.pending && s'.mask == s.mask && s'.prev == s.prev
    && s'.kids == s.kids.(unlisted := unlisted) && s'.table.nextjid == nextjid && |s'.table.jobs| == MAXJOBS
  }

  lemma PlaysAdd(events: seq<Event>) returns (longer: seq<Event>)
    requires PlainRun(events)
    requires var s := Exec(INITIAL, events);
             |s.table.jobs| == MAXJOBS && s.main.Forked? && s.main.pid > 0 && s.main.state == BG && s.frames == []
    ensures longer == events + [M(AddsJob)] && PlainRun(longer)
    ensures var s := Exec(INITIAL, events);
            var full := s.table.nextjid > MAXJOBS;
            Listed(s, Exec(INITIAL, longer), if full then s.table.nextjid else s.table.nextjid + 1,
                   if full then s.kids.unlisted + {s.main.pid} else s.kids.unlisted)
  {
    PlainRunInv(events);
    AddsBackground(Exec(INITIAL, events));
    longer := Plays(events, M(AddsJob));
  }

  const BACKGROUND_LINE := "sleep 100 &"

  /** The steps of the shell that start a background job with that pid. */
  function Starting(pid: int): seq<Event> {
    [M(ReadCommand(Fork(BG, BACKGROUND_LINE))), M(ForkReturns(pid)), M(AddsJob), M(RestoresMask)]
  }

  /** Background jobs started one after the other, as pids 1 .. n. */
  function StartingAll(n: nat): seq<Event> {
    if n == 0 then [] else StartingAll(n - 1) + Starting(n)
  }

  /** The child `p` stops, and SIGCHLD is handled as far as the job list. */
  function Stopping(p: int): seq<Event> {
    [K(ChildStops(p)), K(Delivers(CHLD)), H(Blocks), H(Waits(p)), H(Updates)]
  }

  /** Starting one more background job, as pid n + 1. */
  lemma StartsAnother(events: seq<Event>, n: nat)
    requires PlainRun(events) && Loaded(Exec(INITIAL, events), n)
    ensures PlainRun(events + Starting(n + 1)) && Loaded(Exec(INITIAL, events + Starting(n + 1)), n + 1)
  {
    var forked := ForksAnother(events, n);
    var added := PlaysAdd(forked);
    var longer := Plays(added, M(RestoresMask));
    assert longer == events + Starting(n + 1);
    OneMoreLoaded(Exec(INITIAL, events), Exec(INITIAL, longer), n);
  }

  lemma OneMoreLoaded(s: State, s': State, n: nat)
    requires Loaded(s, n) && s'.main == Prompt && s'.frames == [] && s'.pending == {} && s'.mask == {}
    requires |s'.table.jobs| == MAXJOBS && s'.kids.children == s.kids.children[n + 1 := Running]
    requires s'.kids.unlisted == if n < MAXJOBS then s.kids.unlisted else s.kids.unlisted + {n + 1}
    requires s'.table.nextjid == (if n < MAXJOBS then n + 2 else MAXJOBS + 1)
    ensures Loaded(s', n + 1)
  {
  }

  lemma ForksAnother(events: seq<Event>, n: nat) returns (longer: seq<Event>)
    requires PlainRun(events) && Loaded(Exec(INITIAL, events), n)
    ensures longer == events + [M(ReadCommand(Fork(BG, BACKGROUND_LINE))), M(ForkReturns(n + 1))] && PlainRun(longer)
    ensures var s, s' := Exec(INITIAL, events), Exec(INITIAL, longer);
            && s'.main == Forked(n + 1, BG, BACKGROUND_LINE) && s'.prev == {}
            && s' == s.(main := s'.main, prev := s'.prev, mask := s'.mask,
                        kids := s.kids.(children := s.kids.children[n + 1 := Running]))
  {
    longer := Plays(events, M(ReadCommand(Fork(BG, BACKGROUND_LINE))));
    longer := Plays(longer, M(ForkReturns(n + 1)));
  }

  lemma {:induction false} Loads(n: nat)
    ensures PlainRun(StartingAll(n)) && Loaded(Exec(INITIAL, StartingAll(n)), n)
  {
    if n > 0 {
      Loads(n - 1);
      StartsAnother(StartingAll(n - 1), n - 1);
    }
  }

  /** With every fork succeeding and no bg or fg at all: after n background jobs the stop of
      one of them takes the shell down if and only if it was started with the list full.
      add_job returned 0 for it, and the handler insists on setting the state of job 0. */
  lemma FullListAborts(n: nat, p: nat)
    requires 1 <= p <= n
    ensures PlainRun(StartingAll(n) + Stopping(p))
    ensures Exec(INITIAL, StartingAll(n) + Stopping(p)).main.Aborted? <==> p > MAXJOBS
  {
    Loads(n);
    var events := Plays(StartingAll(n), K(ChildStops(p)));
    events := Plays(events, K(Delivers(CHLD)));
    StopIsFatal(events, p);
    assert events + [H(Blocks), H(Waits(p)), H(Updates)] == StartingAll(n) + Stopping(p);
  }

  /** The handler has just been entered, and the stop of `p` is still to be reported. */
  predicate StopArrives(s: State, p: int) {
    && !s.main.Aborted? && |s.table.jobs| == MAXJOBS
    && s.frames != [] && Top(s).kind == CHLD && Top(s).phase == Entry
    && p in s.kids.children && s.kids.children[p] == Stopped(false)
  }

  /** It has been reported, and is about to be written down. */
  predicate StopReported(s: State, p: int) {
    !s.main.Aborted? && |s.table.jobs| == MAXJOBS && s.frames != [] && Top(s).phase == Got(p, false)
  }

  lemma BlocksThenWaits(events: seq<Event>, p: int) returns (longer: seq<Event>)
    requires PlainRun(events) && StopArrives(Exec(INITIAL, events), p)
    ensures longer == events + [H(Blocks), H(Waits(p))] && PlainRun(longer)
    ensures StopReported(Exec(INITIAL, longer), p)
    ensures Exec(INITIAL, longer).kids.unlisted == Exec(INITIAL, events).kids.unlisted
  {
    longer := Plays(events, H(Blocks));
    longer := Plays(longer, H(Waits(p)));
  }

  lemma StopIsFatal(events: seq<Event>, p: int)
    requires PlainRun(events) && StopArrives(Exec(INITIAL, events), p)
    ensures var longer := events + [H(Blocks), H(Waits(p)), H(Updates)];
            PlainRun(longer) && (Exec(INITIAL, longer).main.Aborted? <==> p in Exec(INITIAL, events).kids.unlisted)
  {
    var waited := BlocksThenWaits(events, p);
    PlainRunInv(waited);
    StopAborts(Exec(INITIAL, waited), p);
    var longer := Plays(waited, H(Updates));
    assert longer == events + [H(Blocks), H(Waits(p)), H(Updates)];
  }

  lemma StopAborts(s: State, p: int)
    requires Inv(s) && Enabled(s, H(Updates)) && Top(s).phase == Got(p, false)
    ensures HandlerStep(s, Updates).main.Aborted? <==> p in s.kids.unlisted
  {
    assert Look(s.table)(p) == StateOf(s.table, p);
    assert Due(s.kids, s.main, Report(s), p) <==> p !in s.kids.unlisted;
    SetStateSets(s.table, p, ST);
  }
}
