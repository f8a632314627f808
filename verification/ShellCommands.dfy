/** What whole commands do to the shell (shelllab/tsh.c, eval and builtin_back_fore): from the
    prompt to the job list that says what was asked for, and from the keyboard to the job. */
module ShellCommands {
  import opened Basics
  import opened JobTable
  import opened Shell
  import opened ShellSafety
  import opened ShellTheorems

  /** At the prompt, with no handler running. Signals may be pending. */
  ghost predicate AtPrompt(s: State) {
    Reachable(s) && s.main.Prompt? && s.frames == []
  }

  lemma PromptIs(s: State)
    requires AtPrompt(s)
    ensures Inv(s) && |s.table.jobs| == MAXJOBS && WellFormed(s.table) && s.mask == {}
    ensures FgJob(s.table) == 0 && forall p :: StateOf(s.table, p) != FG
    ensures forall p :: p !in s.kids.children ==> StateOf(s.table, p) == UNDEF
  {
    ReachableInv(s);
    forall p ensures StateOf(s.table, p) != FG { PromptHasNoForeground(s, p); }
    PromptHasNoForeground(s, 0);
    forall p | p !in s.kids.children ensures StateOf(s.table, p) == UNDEF { JobsMirrorChildren(s, p); }
  }

  // ---- Programs ----

  /** The steps of a command that is not built in, up to the wait or the next prompt. */
  function Starts(state: JobState, line: string, pid: int): seq<Event> {
    [M(ReadCommand(Fork(state, line))), M(ForkReturns(pid)), M(AddsJob),
     if state == FG then M(TestsForeground) else M(RestoresMask)]
  }

  /** The child has a job of the state asked for, with its line, and the shell waits for it
      exactly when that is the foreground. */
  ghost predicate Launched(s: State, s': State, pid: int, state: JobState, line: string)
    requires |s.table.jobs| == |s'.table.jobs| == MAXJOBS
  {
    && OnlyJob(s.table, s'.table, pid, Some(Job(pid, s.table.nextjid, state, line)))
    && s'.mask == {} && s'.kids.unlisted == s.kids.unlisted
    && (state == FG ==> s'.main.Suspended? && FgJob(s'.table) != 0 && FgPid(s'.table) == pid)
    && (state == BG ==> s'.main == Prompt && FgJob(s'.table) == 0)
  }

  /** A command is listed as asked for, under its own line; a foreground command is waited
      for, and a background command leads straight back to the prompt. With no slot left the
      child is not listed, and no command is waited for. */
  lemma CommandStarts(s: State, state: JobState, line: string, pid: int)
    requires AtPrompt(s) && (state == FG || state == BG) && pid > 0 && pid !in s.kids.children
    ensures Feasible(s, Starts(state, line, pid))
    ensures var s' := Exec(s, Starts(state, line, pid));
            && |s'.table.jobs| == MAXJOBS && s'.frames == [] && s'.pending == s.pending
            && s'.kids.children == s.kids.children[pid := Running]
            && (s.table.nextjid <= MAXJOBS ==> Launched(s, s', pid, state, line))
            && (s.table.nextjid > MAXJOBS ==>
                  && s'.table == s.table && s'.kids.unlisted == s.kids.unlisted + {pid}
                  && s'.main == (if state == FG then Unblock else Prompt))
  {
    PromptIs(s);
    var read, forked := Forks(s, state, line, pid);
    var added := Adds(forked, pid, state, line);
    var settled := Settles(added, state == FG);
    FourSteps(s, M(ReadCommand(Fork(state, line))), read, M(ForkReturns(pid)), forked, M(AddsJob), added,
              if state == FG then M(TestsForeground) else M(RestoresMask), settled);
  }

  /** What adding the job leaves to do: nothing is in the foreground but what was asked for. */
  ghost predicate Added(s: State, s': State, pid: int, state: JobState, line: string)
    requires |s.table.jobs| == |s'.table.jobs| == MAXJOBS
  {
    && s'.main == (if state == FG then Check else Unblock)
    && s' == s.(main := s'.main, table := s'.table, kids := s.kids.(unlisted := s'.kids.unlisted))
    && (if s.table.nextjid <= MAXJOBS then
          && OnlyJob(s.table, s'.table, pid, Some(Job(pid, s.table.nextjid, state, line)))
          && s'.kids.unlisted == s.kids.unlisted
          && (if state == FG then FgJob(s'.table) != 0 && FgPid(s'.table) == pid else FgJob(s'.table) == 0)
        else
          s'.table == s.table && s'.kids.unlisted == s.kids.unlisted + {pid} && FgJob(s'.table) == 0)
  }

  lemma Adds(s: State, pid: int, state: JobState, line: string) returns (s': State)
    requires s.main == Forked(pid, state, line) && s.frames == [] && pid > 0 && (state == FG || state == BG)
    requires WellFormed(s.table) && FgJob(s.table) == 0 && StateOf(s.table, pid) == UNDEF
    ensures Steps(s, M(AddsJob), s') && |s'.table.jobs| == MAXJOBS
    ensures Added(s, s', pid, state, line)
  {
    s' := Apply(s, M(AddsJob));
    var t := s.table;
    FgJobFinds(t);
    AddJobAdds(t, pid, state, line);
    AddJobRecords(t, pid, state, line);
    if t.nextjid <= MAXJOBS { ForegroundAfter(t, s'.table, pid, state); }
  }

  /** The last step: a job in the foreground is waited for, and otherwise the mask is as before. */
  lemma Settles(s: State, waits: bool) returns (s': State)
    requires s.frames == [] && |s.table.jobs| == MAXJOBS && s.prev == {}
    requires s.main == if waits then Check else Unblock
    ensures Steps(s, if waits then M(TestsForeground) else M(RestoresMask), s')
    ensures s' == s.(main := s'.main, mask := s'.mask)
    ensures s'.main == if !waits then Prompt else if FgJob(s.table) != 0 then Suspended(s.mask) else Unblock
    ensures s'.mask == if waits && FgJob(s.table) == 0 then s.mask else {}
  {
    s' := Apply(s, if waits then M(TestsForeground) else M(RestoresMask));
  }

  lemma Forks(s: State, state: JobState, line: string, pid: int) returns (read: State, forked: State)
    requires s.main.Prompt? && s.frames == [] && (state == FG || state == BG) && pid > 0 && pid !in s.kids.children
    requires |s.table.jobs| == MAXJOBS && s.mask == {}
    ensures Steps(s, M(ReadCommand(Fork(state, line))), read) && Steps(read, M(ForkReturns(pid)), forked)
    ensures forked == s.(main := Forked(pid, state, line), prev := {}, mask := ALL,
                         kids := s.kids.(children := s.kids.children[pid := Running]))
  {
    assert {} + ALL == ALL;
    read := Apply(s, M(ReadCommand(Fork(state, line))));
    forked := Apply(read, M(ForkReturns(pid)));
  }

  lemma FourSteps(s: State, e1: Event, s1: State, e2: Event, s2: State, e3: Event, s3: State, e4: Event, s4: State)
    requires Steps(s, e1, s1) && Steps(s1, e2, s2) && Steps(s2, e3, s3) && Steps(s3, e4, s4)
    ensures Feasible(s, [e1, e2, e3, e4]) && Exec(s, [e1, e2, e3, e4]) == s4
  {
    ThreeSteps(s1, e2, s2, e3, s3, e4, s4);
    OneMore(s, e1, [e2, e3, e4]);
    assert [e1] + [e2, e3, e4] == [e1, e2, e3, e4];
  }

  lemma ThreeSteps(s: State, e1: Event, s1: State, e2: Event, s2: State, e3: Event, s3: State)
    requires Steps(s, e1, s1) && Steps(s1, e2, s2) && Steps(s2, e3, s3)
    ensures Feasible(s, [e1, e2, e3]) && Exec(s, [e1, e2, e3]) == s3
  {
    OneMore(s2, e3, []);
    OneMore(s1, e2, [e3]);
    OneMore(s, e1, [e2, e3]);
    assert [e3] + [] == [e3] && [e2] + [e3] == [e2, e3] && [e1] + [e2, e3] == [e1, e2, e3];
  }

  ghost predicate Steps(s: State, e: Event, s': State) {
    Enabled(s, e) && s' == Apply(s, e)
  }

  lemma OneMore(s: State, e: Event, rest: seq<Event>)
    requires Enabled(s, e) && Feasible(Apply(s, e), rest)
    ensures Feasible(s, [e] + rest) && Exec(s, [e] + rest) == Exec(Apply(s, e), rest)
  {
    assert ([e] + rest)[1..] == rest;
  }

  /** The foreground lookup after the state of one pid has been set. */
  lemma ForegroundAfter(t: Table, t': Table, pid: int, x: JobState)
    requires WellFormed(t) && WellFormed(t') && (forall q :: StateOf(t, q) != FG)
    requires OnlyChanges(t, t', pid, x)
    ensures x == FG ==> FgJob(t') != 0 && FgPid(t') == pid
    ensures x != FG ==> FgJob(t') == 0
  {
    FgJobFinds(t');
    if x == FG { OneForeground(t', pid); }
  }

  // ---- bg and fg ----

  /** What the argument of bg or fg names: the job with that jid, or of that pid. */
  predicate Names(t: Table, target: Target, pid: int)
    requires |t.jobs| == MAXJOBS
  {
    && JobOf(t, pid).Some?
    && match target
       case ByJid(jid) => JobOf(t, pid).value.jid == jid
       case ByPid(p) => p == pid
  }

  /** The steps of bg or fg on a job, up to the wait or the next prompt. */
  function Continues(target: Target, background: bool): seq<Event> {
    [M(ReadCommand(Builtin(target, background))), M(LooksUp), M(SetsState),
     if !background then M(TestsForeground) else M(RestoresMask)]
  }

  /** The named job runs again if it was stopped, in the state asked for and otherwise as it
      was; fg waits for it, and bg leads straight back to the prompt. */
  lemma JobContinues(s: State, target: Target, background: bool, pid: int)
    requires AtPrompt(s) && |s.table.jobs| == MAXJOBS && Names(s.table, target, pid)
    ensures Feasible(s, Continues(target, background))
    ensures var s' := Exec(s, Continues(target, background));
            && |s'.table.jobs| == MAXJOBS && s'.frames == [] && s'.pending == s.pending && s'.mask == {}
            && StateIs(s.table, s'.table, pid, if background then BG else FG) && Resumed(s.kids, s'.kids, pid)
            && (if background then s'.main == Prompt else s'.main.Suspended?)
  {
    PromptIs(s);
    var asked, looked := Finds(s, target, background, pid);
    var told := Sets(looked, pid, background);
    var settled := Settles(told, !background);
    FourSteps(s, M(ReadCommand(Builtin(target, background))), asked, M(LooksUp), looked, M(SetsState), told,
              if !background then M(TestsForeground) else M(RestoresMask), settled);
  }

  /** One job has a new state, and is the one in the foreground if that is it. */
  ghost predicate StateIs(t: Table, t': Table, pid: int, x: JobState)
    requires |t.jobs| == |t'.jobs| == MAXJOBS && JobOf(t, pid).Some?
  {
    && OnlyJob(t, t', pid, Some(JobOf(t, pid).value.(state := x)))
    && (if x == FG then FgJob(t') != 0 && FgPid(t') == pid else FgJob(t') == 0)
  }

  /** The child of the job runs if it was stopped, and nothing else happens to the children. */
  ghost predicate Resumed(k: Kids, k': Kids, pid: int) {
    && k'.unlisted == k.unlisted && k'.meddled == k.meddled
    && (forall p :: p in k'.children <==> p in k.children)
    && (forall p :: p in k.children && p != pid ==> k'.children[p] == k.children[p])
    && (pid in k.children ==>
          k'.children[pid] == if k.children[pid].Stopped? then Running else k.children[pid])
  }

  lemma Finds(s: State, target: Target, background: bool, pid: int) returns (asked: State, looked: State)
    requires s.main.Prompt? && s.frames == [] && WellFormed(s.table) && s.mask == {}
    requires Names(s.table, target, pid)
    ensures Steps(s, M(ReadCommand(Builtin(target, background))), asked) && Steps(asked, M(LooksUp), looked)
    ensures looked == s.(main := Continued(pid, background), prev := {}, mask := ALL, kids := looked.kids)
    ensures Resumed(s.kids, looked.kids, pid)
  {
    NamedIsTarget(s.table, target, pid);
    assert {} + ALL == ALL;
    asked := Apply(s, M(ReadCommand(Builtin(target, background))));
    looked := Apply(asked, M(LooksUp));
  }

  lemma NamedIsTarget(t: Table, target: Target, pid: int)
    requires WellFormed(t) && Names(t, target, pid)
    ensures TargetPid(t, target) == pid && pid > 0 && JobFromPid(t, pid) != 0
  {
    PidFound(t, pid);
    JobOfIs(t, pid);
  }

  lemma Sets(s: State, pid: int, background: bool) returns (s': State)
    requires s.main == Continued(pid, background) && s.frames == []
    requires WellFormed(s.table) && JobOf(s.table, pid).Some? && (forall q :: StateOf(s.table, q) != FG)
    ensures Steps(s, M(SetsState), s') && |s'.table.jobs| == MAXJOBS
    ensures s' == s.(main := if background then Unblock else Check, table := s'.table)
    ensures StateIs(s.table, s'.table, pid, if background then BG else FG)
  {
    var x := if background then BG else FG;
    JobOfIs(s.table, pid);
    FgJobFinds(s.table);
    SetStateSets(s.table, pid, x);
    SetStateKeepsRest(s.table, pid, x);
    s' := Apply(s, M(SetsState));
    ForegroundAfter(s.table, s'.table, pid, x);
  }

  /** A jid that names no job: the shell says so and is back at its prompt. */
  lemma NoSuchJob(s: State, jid: int, background: bool)
    requires AtPrompt(s) && |s.table.jobs| == MAXJOBS && !JobExists(s.table, jid)
    ensures var events := [M(ReadCommand(Builtin(ByJid(jid), background))), M(LooksUp), M(RestoresMask)];
            Feasible(s, events) && Exec(s, events) == s.(prev := {})
  {
    PromptIs(s);
    var asked := Apply(s, M(ReadCommand(Builtin(ByJid(jid), background))));
    var looked := Apply(asked, M(LooksUp));
    OneMore(looked, M(RestoresMask), []);
    OneMore(asked, M(LooksUp), [M(RestoresMask)]);
    OneMore(s, M(ReadCommand(Builtin(ByJid(jid), background))), [M(LooksUp), M(RestoresMask)]);
  }

  // ---- Commands that end the shell ----

  /** A fork that fails: its result is taken for a pid. */
  lemma FailedForkAborts(s: State, state: JobState, line: string, pid: int)
    requires AtPrompt(s) && (state == FG || state == BG) && pid < 0
    ensures var events := [M(ReadCommand(Fork(state, line))), M(ForkReturns(pid)), M(AddsJob)];
            Feasible(s, events) && Exec(s, events).main.Aborted?
  {
    PromptIs(s);
    ReachableInv(s);
    assert pid !in s.kids.children;
    var read, forked, added := ForkFails(s, state, line, pid);
    ThreeSteps(s, M(ReadCommand(Fork(state, line))), read, M(ForkReturns(pid)), forked, M(AddsJob), added);
  }

  lemma ForkFails(s: State, state: JobState, line: string, pid: int)
    returns (read: State, forked: State, added: State)
    requires s.main.Prompt? && s.frames == [] && |s.table.jobs| == MAXJOBS
    requires (state == FG || state == BG) && pid < 0 && pid !in s.kids.children
    ensures Steps(s, M(ReadCommand(Fork(state, line))), read) && Steps(read, M(ForkReturns(pid)), forked)
    ensures Steps(forked, M(AddsJob), added) && added.main.Aborted?
  {
    read := Apply(s, M(ReadCommand(Fork(state, line))));
    forked := Apply(read, M(ForkReturns(pid)));
    added := Apply(forked, M(AddsJob));
  }

  /** bg and fg with a pid that has no job. */
  lemma UnknownPidAborts(s: State, pid: int)
    requires AtPrompt(s) && |s.table.jobs| == MAXJOBS && JobOf(s.table, pid) == None
    ensures var events := [M(ReadCommand(Builtin(ByPid(pid), true))), M(LooksUp)];
            Feasible(s, events) && Exec(s, events).main.Aborted?
    ensures var events := [M(ReadCommand(Builtin(ByPid(pid), false))), M(LooksUp), M(SetsState)];
            Feasible(s, events) && Exec(s, events).main.Aborted?
  {
    PromptIs(s);
    var asked, looked := LooksInVain(s, pid, true);
    OneMore(asked, M(LooksUp), []);
    OneMore(s, M(ReadCommand(Builtin(ByPid(pid), true))), [M(LooksUp)]);
    assert [M(ReadCommand(Builtin(ByPid(pid), true)))] + [M(LooksUp)]
        == [M(ReadCommand(Builtin(ByPid(pid), true))), M(LooksUp)] && [M(LooksUp)] + [] == [M(LooksUp)];
    asked, looked := LooksInVain(s, pid, false);
    var told := SetsInVain(looked, pid);
    ThreeSteps(s, M(ReadCommand(Builtin(ByPid(pid), false))), asked, M(LooksUp), looked, M(SetsState), told);
  }

  lemma LooksInVain(s: State, pid: int, background: bool) returns (asked: State, looked: State)
    requires s.main.Prompt? && s.frames == [] && |s.table.jobs| == MAXJOBS && JobFromPid(s.table, pid) == 0
    ensures Steps(s, M(ReadCommand(Builtin(ByPid(pid), background))), asked) && Steps(asked, M(LooksUp), looked)
    ensures if background then looked.main.Aborted?
            else looked.main == Continued(pid, false) && looked.table == s.table && looked.frames == []
  {
    asked := Apply(s, M(ReadCommand(Builtin(ByPid(pid), background))));
    looked := Apply(asked, M(LooksUp));
  }

  lemma SetsInVain(s: State, pid: int) returns (told: State)
    requires s.main == Continued(pid, false) && s.frames == [] && |s.table.jobs| == MAXJOBS
    requires JobFromPid(s.table, pid) == 0
    ensures Steps(s, M(SetsState), told) && told.main.Aborted?
  {
    told := Apply(s, M(SetsState));
  }

  // ---- The keyboard ----

  /** In the handler of a keyboard signal, about to look for the foreground job. */
  function Handling(s: State, x: Signal): State {
    s.(pending := s.pending - {x}, mask := ALL, main := if s.main.Suspended? then Check else s.main,
       frames := [Frame(x, Body, {x}, if s.main.Suspended? then ALL else {})])
  }

  /** A key gets through at once both at the prompt and while the shell waits. Its handler
      finds no job at the prompt, and the child that is waited for otherwise; and when it is
      done the shell is where it was. */
  lemma KeyGetsThrough(s: State, x: Signal)
    requires Reachable(s) && s.frames == [] && (s.main.Prompt? || s.main.Suspended?) && x != CHLD
    ensures var events := [K(SignalArrives(x)), K(Delivers(x)), H(Blocks)];
            Feasible(s, events) && Exec(s, events) == Handling(s, x) && Enabled(Handling(s, x), H(Kills))
    ensures |s.table.jobs| == MAXJOBS
    ensures if s.main.Prompt? then FgJob(s.table) == 0
            else FgJob(s.table) != 0 && FgPid(s.table) in s.kids.children
    ensures var events := [H(Kills), H(Restores), H(Returns)] + if s.main.Suspended? then [M(TestsForeground)] else [];
            && Feasible(Handling(s, x), events)
            && Exec(Handling(s, x), events) == s.(pending := s.pending - {x})
  {
    ReachableInv(s);
    if s.main.Prompt? { PromptHasNoForeground(s, 0); } else { NoLostWakeup(s); }
    KeyHandled(s, x);
    KeyDone(s, x);
  }

  lemma KeyHandled(s: State, x: Signal)
    requires s.frames == [] && s.mask == {} && |s.table.jobs| == MAXJOBS && x != CHLD
    requires s.main == Prompt || s.main == Suspended(ALL)
    ensures var events := [K(SignalArrives(x)), K(Delivers(x)), H(Blocks)];
            Feasible(s, events) && Exec(s, events) == Handling(s, x) && Enabled(Handling(s, x), H(Kills))
  {
    var arrived, entered := KeyArrives(s, x);
    var handling := KeyBlocks(entered, x);
    assert handling == Handling(s, x);
    ThreeSteps(s, K(SignalArrives(x)), arrived, K(Delivers(x)), entered, H(Blocks), handling);
  }

  lemma KeyArrives(s: State, x: Signal) returns (arrived: State, entered: State)
    requires s.frames == [] && s.mask == {} && |s.table.jobs| == MAXJOBS
    requires s.main == Prompt || s.main == Suspended(ALL)
    ensures Steps(s, K(SignalArrives(x)), arrived) && Steps(arrived, K(Delivers(x)), entered)
    ensures entered == s.(pending := s.pending - {x}, mask := {x}, main := if s.main.Suspended? then Check else s.main,
                          frames := [Frame(x, Entry, {}, if s.main.Suspended? then ALL else {})])
  {
    arrived := Apply(s, K(SignalArrives(x)));
    entered := Apply(arrived, K(Delivers(x)));
    assert s.pending + {x} - {x} == s.pending - {x} && {} + {x} == {x};
  }

  lemma KeyBlocks(s: State, x: Signal) returns (s': State)
    requires |s.frames| == 1 && s.frames[0].phase == Entry && s.frames[0].kind == x && s.mask == {x}
    requires |s.table.jobs| == MAXJOBS && !s.main.Aborted? && x != CHLD
    ensures Steps(s, H(Blocks), s') && Enabled(s', H(Kills))
    ensures s' == s.(mask := ALL, frames := [Frame(x, Body, {x}, s.frames[0].resume)])
  {
    s' := Apply(s, H(Blocks));
    SignalInAll(x);
    assert {x} + ALL == ALL;
  }

  lemma KeyDone(s: State, x: Signal)
    requires s.frames == [] && s.mask == {} && |s.table.jobs| == MAXJOBS && x != CHLD
    requires s.main == Prompt || (s.main == Suspended(ALL) && s.prev == {} && FgJob(s.table) != 0)
    ensures var events := [H(Kills), H(Restores), H(Returns)] + if s.main.Suspended? then [M(TestsForeground)] else [];
            && Feasible(Handling(s, x), events)
            && Exec(Handling(s, x), events) == s.(pending := s.pending - {x})
  {
    var h := Handling(s, x);
    var killed, restored, returned := KeyLeaves(h, x);
    ThreeSteps(h, H(Kills), killed, H(Restores), restored, H(Returns), returned);
    if s.main.Suspended? {
      var tested := Settles(returned, true);
      FourSteps(h, H(Kills), killed, H(Restores), restored, H(Returns), returned, M(TestsForeground), tested);
      assert [H(Kills), H(Restores), H(Returns)] + [M(TestsForeground)]
          == [H(Kills), H(Restores), H(Returns), M(TestsForeground)];
    } else {
      assert [H(Kills), H(Restores), H(Returns)] + [] == [H(Kills), H(Restores), H(Returns)];
    }
  }

  lemma KeyLeaves(h: State, x: Signal) returns (killed: State, restored: State, returned: State)
    requires |h.frames| == 1 && h.frames[0].phase == Body && h.frames[0].kind == x && h.frames[0].prev == {x}
    requires |h.table.jobs| == MAXJOBS && !h.main.Aborted? && x != CHLD
    ensures Steps(h, H(Kills), killed) && Steps(killed, H(Restores), restored) && Steps(restored, H(Returns), returned)
    ensures returned == h.(frames := [], mask := h.frames[0].resume)
  {
    killed := Apply(h, H(Kills));
    assert killed == h.(frames := [Top(h).(phase := Restore)]);
    restored := Apply(killed, H(Restores));
    assert restored == killed.(frames := [Top(killed).(phase := Exit)], mask := {x});
    returned := Apply(restored, H(Returns));
  }
}
