/** The shell as a step machine (shelllab/tsh.c): the read/eval loop, the signal handlers
    and the kernel interleave, constrained only by the signal mask and by sigsuspend. */
module Shell {
  import opened JobTable

  datatype Signal = CHLD | INT | TSTP

  const ALL: set<Signal> := {CHLD, INT, TSTP}

  /** A child of the shell that has not been reaped. A stop is reported once by waitpid. */
  datatype Child = Running | Stopped(reported: bool) | Zombie

  datatype Phase =
    | Entry                      // before the handler blocks signals
    | Body                       // blocked; for SIGCHLD, about to call waitpid
    | Got(pid: int, dead: bool)  // SIGCHLD: waitpid reported this child, the job list not yet updated
    | Restore                    // about to restore the mask found on entry
    | Exit                       // about to return

  /** A running handler: the mask it found, and the mask its return reinstates. */
  datatype Frame = Frame(kind: Signal, phase: Phase, prev: set<Signal>, resume: set<Signal>)

  datatype Target = ByJid(jid: int) | ByPid(pid: int)

  datatype Command = Fork(state: JobState, line: string) | Builtin(target: Target, background: bool)

  datatype Main =
    | Prompt
    | Blocked(command: Command)          // signals blocked, before fork or before the lookup of bg/fg
    | Forked(pid: int, state: JobState, line: string)  // fork returned, job not yet added
    | Continued(pid: int, background: bool)  // bg/fg: SIGCONT sent, state not yet set
    | Check                              // the loop test on the foreground job
    | Suspended(saved: set<Signal>)      // inside sigsuspend; `saved` is the mask it will reinstate
    | Unblock                            // about to restore the caller's mask
    | Aborted

  /** The children. `unlisted` records those forked while the job list was full, until the
      handler is done with their death; `meddled` records whether anyone but the shell has
      continued a child. */
  datatype Kids = Kids(children: map<int, Child>, unlisted: set<int>, meddled: bool)

  datatype State = State(table: Table, kids: Kids, pending: set<Signal>, mask: set<Signal>, prev: set<Signal>,
                         main: Main, frames: seq<Frame>)

  const INITIAL := State(InitTable(), Kids(map[], {}, false), {}, {}, {}, Prompt, [])

  /** Steps of the read/eval loop. */
  datatype MainEvent =
    | ReadCommand(command: Command)
    | ForkReturns(pid: int)
    | AddsJob
    | LooksUp
    | SetsState
    | TestsForeground
    | RestoresMask

  /** Steps of the topmost handler. */
  datatype HandlerEvent =
    | Blocks
    | Waits(pid: int)
    | Updates
    | Kills
    | Drained
    | Restores
    | Returns

  /** Steps of the kernel and the outside world. */
  datatype KernelEvent =
    | Delivers(signal: Signal)
    | ChildStops(pid: int)
    | ChildExits(pid: int)
    | ChildContinues(pid: int)
    | SignalArrives(signal: Signal)

  datatype Event = M(m: MainEvent) | H(h: HandlerEvent) | K(k: KernelEvent)

  predicate Reportable(c: Child) {
    c == Zombie || c == Stopped(false)
  }

  predicate NothingToReport(children: map<int, Child>) {
    forall p :: p in children ==> !Reportable(children[p])
  }

  /** The pid named by the argument of bg or fg: 0 when there is no such job. */
  function TargetPid(t: Table, target: Target): int
    requires |t.jobs| == MAXJOBS
  {
    match target
    case ByJid(jid) => if JobExists(t, jid) then t.jobs[jid - 1].pid else 0
    case ByPid(pid) => pid
  }

  function Resume(children: map<int, Child>, pid: int): map<int, Child> {
    if pid in children && children[pid].Stopped? then children[pid := Running] else children
  }

  function Top(s: State): Frame
    requires s.frames != []
  {
    s.frames[|s.frames| - 1]
  }

  function Below(s: State): seq<Frame>
    requires s.frames != []
  {
    s.frames[..|s.frames| - 1]
  }

  function SetPhase(s: State, phase: Phase): State
    requires s.frames != []
  {
    s.(frames := Below(s) + [Top(s).(phase := phase)])
  }

  // ---- The read/eval loop ----

  predicate MainEnabled(s: State, e: MainEvent) {
    && s.frames == []
    && (match e
        case ReadCommand(c) => s.main.Prompt? && (c.Fork? ==> c.state == FG || c.state == BG)
        case ForkReturns(pid) => s.main.Blocked? && s.main.command.Fork? && pid != 0 && pid !in s.kids.children
        case AddsJob => s.main.Forked?
        case LooksUp => s.main.Blocked? && s.main.command.Builtin?
        case SetsState => s.main.Continued?
        case TestsForeground => s.main.Check?
        case RestoresMask => s.main.Unblock?)
  }

  function MainStep(s: State, e: MainEvent): State
    requires MainEnabled(s, e) && |s.table.jobs| == MAXJOBS
  {
    var t := s.table;
    match e
    case ReadCommand(c) => s.(main := Blocked(c), prev := s.mask, mask := s.mask + ALL)
    case ForkReturns(pid) =>
      // a failed fork returns a negative number
      var children := if pid > 0 then s.kids.children[pid := Running] else s.kids.children;
      s.(main := Forked(pid, s.main.command.state, s.main.command.line), kids := s.kids.(children := children))
    case AddsJob =>
      (match AddJob(t, s.main.pid, s.main.state, s.main.line)
       case Abort => s.(main := Aborted)
       case Done(t', jid) =>
         var unlisted := if jid == 0 then s.kids.unlisted + {s.main.pid} else s.kids.unlisted;
         s.(table := t', kids := s.kids.(unlisted := unlisted), main := if s.main.state == FG then Check else Unblock))
    case LooksUp =>
      var target, bg := s.main.command.target, s.main.command.background;
      var pid := TargetPid(t, target);
      if target.ByJid? && pid == 0 then s.(main := Unblock)
      else if bg && JobFromPid(t, pid) == 0 then s.(main := Aborted)
      else s.(main := Continued(pid, bg), kids := s.kids.(children := Resume(s.kids.children, pid)))
    case SetsState =>
      (match SetState(t, JobFromPid(t, s.main.pid), if s.main.background then BG else FG)
       case Abort => s.(main := Aborted)
       case Done(t', _) => s.(table := t', main := if s.main.background then Unblock else Check))
    case TestsForeground =>
      if FgJob(t) > 0 then s.(main := Suspended(s.mask), mask := s.prev) else s.(main := Unblock)
    case RestoresMask => s.(main := Prompt, mask := s.prev)
  }

  // ---- The handlers ----

  predicate HandlerEnabled(s: State, e: HandlerEvent) {
    && s.frames != []
    && (match e
        case Blocks => Top(s).phase.Entry?
        case Waits(pid) => Top(s).phase.Body? && Top(s).kind == CHLD
                           && pid in s.kids.children && Reportable(s.kids.children[pid])
        case Updates => Top(s).phase.Got?
        case Kills => Top(s).phase.Body? && Top(s).kind != CHLD
        case Drained => Top(s).phase.Body? && Top(s).kind == CHLD && NothingToReport(s.kids.children)
        case Restores => Top(s).phase.Restore?
        case Returns => Top(s).phase.Exit?)
  }

  function HandlerStep(s: State, e: HandlerEvent): State
    requires HandlerEnabled(s, e) && |s.table.jobs| == MAXJOBS
  {
    match e
    case Blocks =>
      s.(frames := Below(s) + [Top(s).(phase := Body, prev := s.mask)], mask := s.mask + ALL)
    case Waits(pid) =>
      var dead := s.kids.children[pid].Zombie?;
      var children := if dead then s.kids.children - {pid} else s.kids.children[pid := Stopped(true)];
      SetPhase(s, Got(pid, dead)).(kids := s.kids.(children := children))
    case Updates =>
      var t, p := s.table, Top(s).phase.pid;
      if Top(s).phase.dead then
        (match DeleteJob(t, JobFromPid(t, p))
         case Abort => s.(main := Aborted)
         case Done(t', _) => SetPhase(s, Body).(table := t', kids := s.kids.(unlisted := s.kids.unlisted - {p})))
      else
        (match SetState(t, JobFromPid(t, p), ST)
         case Abort => s.(main := Aborted)
         case Done(t', _) => SetPhase(s, Body).(table := t'))
    case Kills => SetPhase(s, Restore)
    case Drained => SetPhase(s, Restore)
    case Restores => SetPhase(s, Exit).(mask := Top(s).prev)
    case Returns => s.(frames := Below(s), mask := Top(s).resume)
  }

  // ---- The kernel ----

  predicate KernelEnabled(s: State, e: KernelEvent) {
    match e
    case Delivers(x) => x in s.pending && x !in s.mask
    case ChildStops(pid) => pid in s.kids.children && s.kids.children[pid].Running?
    case ChildExits(pid) => pid in s.kids.children && !s.kids.children[pid].Zombie?
    case ChildContinues(pid) => pid in s.kids.children && s.kids.children[pid].Stopped?
    case SignalArrives(x) => true
  }

  function KernelStep(s: State, e: KernelEvent): State
    requires KernelEnabled(s, e)
  {
    match e
    case Delivers(x) =>
      // interrupting sigsuspend reinstates the mask it saved once the handler returns
      var resume := if s.main.Suspended? then s.main.saved else s.mask;
      s.(pending := s.pending - {x}, mask := s.mask + {x}, frames := s.frames + [Frame(x, Entry, {}, resume)],
         main := if s.main.Suspended? then Check else s.main)
    case ChildStops(pid) =>
      s.(kids := s.kids.(children := s.kids.children[pid := Stopped(false)]), pending := s.pending + {CHLD})
    case ChildExits(pid) =>
      s.(kids := s.kids.(children := s.kids.children[pid := Zombie]), pending := s.pending + {CHLD})
    case ChildContinues(pid) =>
      s.(kids := s.kids.(children := s.kids.children[pid := Running], meddled := true))
    case SignalArrives(x) => s.(pending := s.pending + {x})
  }

  predicate Enabled(s: State, e: Event) {
    && !s.main.Aborted? && |s.table.jobs| == MAXJOBS
    && (match e
        case M(m) => MainEnabled(s, m)
        case H(h) => HandlerEnabled(s, h)
        case K(k) => KernelEnabled(s, k))
  }

  function Apply(s: State, e: Event): State
    requires Enabled(s, e)
  {
    match e
    case M(m) => MainStep(s, m)
    case H(h) => HandlerStep(s, h)
    case K(k) => KernelStep(s, k)
  }

  /** A run: every event is enabled where it happens. */
  ghost predicate Feasible(s: State, events: seq<Event>)
    decreases |events|
  {
    events == [] || (Enabled(s, events[0]) && Feasible(Apply(s, events[0]), events[1..]))
  }

  function Exec(s: State, events: seq<Event>): State
    requires Feasible(s, events)
    decreases |events|
  {
    if events == [] then s else Exec(Apply(s, events[0]), events[1..])
  }
}
