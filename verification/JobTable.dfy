/** The job list of the shell (shelllab/tsh_helper.c): a fixed array of slots, updated in
    place, and the table of pids and states it stands for. */
module JobTable {
  import opened Basics

  const MAXJOBS: nat := 64

  datatype JobState = UNDEF | FG | BG | ST

  datatype Job = Job(pid: int, jid: nat, state: JobState, cmdline: string)

  datatype Table = Table(jobs: seq<Job>, nextjid: nat)

  /** A call either returns or ends the process through abort(). */
  datatype Outcome<+T> = Done(table: Table, value: T) | Abort

  function Cleared(job: Job): Job {
    job.(pid := 0, jid := 0, state := UNDEF)
  }

  // ---- The operations, on values ----

  function FirstJob(jobs: seq<Job>, want: Job -> bool): (jid: nat)
    ensures jid <= |jobs|
    ensures jid > 0 ==> want(jobs[jid - 1]) && forall k :: 0 <= k < jid - 1 ==> !want(jobs[k])
    ensures jid == 0 ==> forall k :: 0 <= k < |jobs| ==> !want(jobs[k])
  {
    if jobs == [] then 0
    else if want(jobs[0]) then 1
    else
      var rest := FirstJob(jobs[1..], want);
      assert forall k :: 1 <= k < |jobs| ==> jobs[k] == jobs[1..][k - 1];
      if rest == 0 then 0 else rest + 1
  }

  const IS_FOREGROUND: Job -> bool := (j: Job) => j.state == FG

  function HasPid(pid: int): Job -> bool {
    (j: Job) => j.state != UNDEF && j.pid == pid
  }

  function MaxJid(jobs: seq<Job>): (jid: nat)
    ensures jid <= |jobs|
    ensures jid > 0 ==> jobs[jid - 1].state != UNDEF
    ensures forall k :: jid <= k < |jobs| ==> jobs[k].state == UNDEF
  {
    if jobs == [] then 0
    else if jobs[|jobs| - 1].state != UNDEF then |jobs|
    else MaxJid(jobs[..|jobs| - 1])
  }

  function FgJob(t: Table): nat {
    FirstJob(t.jobs, IS_FOREGROUND)
  }

  function JobFromPid(t: Table, pid: int): nat {
    if pid < 1 then 0 else FirstJob(t.jobs, HasPid(pid))
  }

  predicate JobExists(t: Table, jid: int)
    requires |t.jobs| == MAXJOBS
  {
    1 <= jid <= MAXJOBS && t.jobs[jid - 1].state != UNDEF
  }

  function AddJob(t: Table, pid: int, state: JobState, cmdline: string): Outcome<nat>
    requires |t.jobs| == MAXJOBS
  {
    if state == UNDEF || (state == FG && FgJob(t) != 0) then Abort
    else if pid <= 0 then Abort
    else if t.nextjid == 0 then Abort
    else if t.nextjid > MAXJOBS then Done(t, 0)
    else if t.jobs[t.nextjid - 1].state != UNDEF then Abort
    else Done(Table(t.jobs[t.nextjid - 1 := Job(pid, t.nextjid, state, cmdline)], t.nextjid + 1), t.nextjid)
  }

  function DeleteJob(t: Table, jid: int): Outcome<bool>
    requires |t.jobs| == MAXJOBS
  {
    if !JobExists(t, jid) then Done(t, false)
    else
      var jobs := t.jobs[jid - 1 := Cleared(t.jobs[jid - 1])];
      Done(Table(jobs, MaxJid(jobs) + 1), true)
  }

  function SetState(t: Table, jid: int, state: JobState): Outcome<()>
    requires |t.jobs| == MAXJOBS
  {
    if !JobExists(t, jid) then Abort
    else if state == UNDEF || (state == FG && FgJob(t) != 0) then Abort
    else Done(t.(jobs := t.jobs[jid - 1 := t.jobs[jid - 1].(state := state)]), ())
  }

  const EMPTY_JOB := Job(0, 0, UNDEF, "")

  function InitTable(): Table {
    Table(seq(MAXJOBS, _ => EMPTY_JOB), 1)
  }

  // ---- What every operation keeps ----

  /** Live slots carry their own jid and a positive pid of their own, at most one is in
      the foreground, and `nextjid` is one past the largest live jid. */
  ghost predicate WellFormed(t: Table) {
    && |t.jobs| == MAXJOBS
    && t.nextjid == MaxJid(t.jobs) + 1
    && (forall i :: 0 <= i < MAXJOBS && t.jobs[i].state != UNDEF ==> t.jobs[i].jid == i + 1 && t.jobs[i].pid > 0)
    && (forall i, j :: 0 <= i < j < MAXJOBS && t.jobs[i].state != UNDEF && t.jobs[j].state != UNDEF ==>
                         t.jobs[i].pid != t.jobs[j].pid)
    && (forall i, j :: 0 <= i < j < MAXJOBS && t.jobs[i].state == FG ==> t.jobs[j].state != FG)
  }

  /** The slots from `nextjid` on are free. */
  lemma FreeAbove(t: Table, jid: nat)
    requires WellFormed(t) && t.nextjid <= jid <= MAXJOBS
    ensures t.jobs[jid - 1].state == UNDEF
  {
  }

  /** The table seen from outside: the state of the job of a pid, UNDEF when it has none. */
  function StateOf(t: Table, pid: int): JobState
    requires |t.jobs| == MAXJOBS
  {
    var jid := JobFromPid(t, pid);
    if jid == 0 then UNDEF else t.jobs[jid - 1].state
  }

  /** From one table to the other, nothing changes but the state of one pid. */
  ghost predicate OnlyChanges(t: Table, t': Table, pid: int, state: JobState)
    requires |t.jobs| == |t'.jobs| == MAXJOBS
  {
    forall q :: StateOf(t', q) == if q == pid then state else StateOf(t, q)
  }

  /** A live slot is the one its pid looks up. */
  lemma SlotFound(t: Table, i: nat)
    requires WellFormed(t) && i < MAXJOBS && t.jobs[i].state != UNDEF
    ensures JobFromPid(t, t.jobs[i].pid) == i + 1 && StateOf(t, t.jobs[i].pid) == t.jobs[i].state
  {
    assert HasPid(t.jobs[i].pid)(t.jobs[i]);
  }

  /** A pid lookup that finds a job finds a live slot of that pid. */
  lemma PidFound(t: Table, pid: int)
    requires |t.jobs| == MAXJOBS
    ensures var jid := JobFromPid(t, pid);
            && (StateOf(t, pid) == UNDEF <==> jid == 0)
            && (jid != 0 ==> JobExists(t, jid) && t.jobs[jid - 1].pid == pid && pid > 0)
  {
    var jid := JobFromPid(t, pid);
    if jid != 0 { assert HasPid(pid)(t.jobs[jid - 1]); }
  }

  lemma InitStates()
    ensures WellFormed(InitTable()) && forall p :: StateOf(InitTable(), p) == UNDEF
  {
    forall p ensures StateOf(InitTable(), p) == UNDEF { PidFound(InitTable(), p); }
  }

  /** The foreground lookup is nonzero exactly when some job is in the foreground. */
  lemma FgJobFinds(t: Table)
    requires WellFormed(t)
    ensures FgJob(t) == 0 ==> forall p :: StateOf(t, p) != FG
    ensures FgJob(t) != 0 ==> JobExists(t, FgJob(t)) && StateOf(t, t.jobs[FgJob(t) - 1].pid) == FG
  {
    if FgJob(t) == 0 {
      forall p ensures StateOf(t, p) != FG {
        PidFound(t, p);
        if JobFromPid(t, p) != 0 { assert !IS_FOREGROUND(t.jobs[JobFromPid(t, p) - 1]); }
      }
    } else {
      SlotFound(t, FgJob(t) - 1);
    }
  }

  /** At most one pid is in the foreground, and it is the one the lookup finds. */
  lemma OneForeground(t: Table, p: int)
    requires WellFormed(t) && StateOf(t, p) == FG
    ensures FgJob(t) != 0 && t.jobs[FgJob(t) - 1].pid == p
  {
    PidFound(t, p);
    assert IS_FOREGROUND(t.jobs[JobFromPid(t, p) - 1]);
  }

  lemma MaxJidIs(jobs: seq<Job>, jid: nat)
    requires jid <= |jobs| && (jid > 0 ==> jobs[jid - 1].state != UNDEF)
    requires forall k :: jid <= k < |jobs| ==> jobs[k].state == UNDEF
    ensures MaxJid(jobs) == jid
  {
  }

  /** A job in a slot that two tables share is found in both. */
  lemma SharedSlot(t: Table, t': Table, k: nat, q: int)
    requires WellFormed(t) && WellFormed(t')
    requires forall i :: 0 <= i < MAXJOBS && i != k ==> t'.jobs[i] == t.jobs[i]
    requires StateOf(t, q) != UNDEF && JobFromPid(t, q) != k + 1
    ensures StateOf(t', q) == StateOf(t, q)
  {
    PidFound(t, q);
    SlotFound(t', JobFromPid(t, q) - 1);
  }

  /** Two tables that agree outside one slot agree on the pids of the other slots. */
  lemma SameElsewhere(t: Table, t': Table, k: nat, q: int)
    requires WellFormed(t) && WellFormed(t') && k < MAXJOBS
    requires forall i :: 0 <= i < MAXJOBS && i != k ==> t'.jobs[i] == t.jobs[i]
    requires t.jobs[k].state != UNDEF ==> t.jobs[k].pid != q
    requires t'.jobs[k].state != UNDEF ==> t'.jobs[k].pid != q
    ensures StateOf(t', q) == StateOf(t, q)
  {
    PidFound(t, q);
    PidFound(t', q);
    if StateOf(t, q) != UNDEF {
      SharedSlot(t, t', k, q);
    } else if StateOf(t', q) != UNDEF {
      SharedSlot(t', t, k, q);
    }
  }

  /** Adding a new pid never aborts; with a slot left the pid gets the state, and with no
      slot left nothing is recorded. */
  lemma AddJobAdds(t: Table, pid: int, state: JobState, cmdline: string)
    requires WellFormed(t) && pid > 0 && StateOf(t, pid) == UNDEF && state != UNDEF
    requires state == FG ==> FgJob(t) == 0
    ensures var r := AddJob(t, pid, state, cmdline);
            && r.Done? && WellFormed(r.table)
            && (t.nextjid > MAXJOBS ==> r.table == t && r.value == 0)
            && (t.nextjid <= MAXJOBS ==>
                  r.value == t.nextjid && OnlyChanges(t, r.table, pid, state))
  {
    if t.nextjid <= MAXJOBS {
      var n := t.nextjid - 1;
      var t' := AddJob(t, pid, state, cmdline).table;
      AddJobWellFormed(t, pid, state, cmdline);
      FreeAbove(t, t.nextjid);
      SlotSet(t, t', n, pid);
    }
  }

  /** Two tables that agree outside one slot, which is free in one and of `pid` in the other. */
  lemma SlotSet(t: Table, t': Table, n: nat, pid: int)
    requires WellFormed(t) && WellFormed(t') && n < MAXJOBS
    requires forall i :: 0 <= i < MAXJOBS && i != n ==> t'.jobs[i] == t.jobs[i]
    requires t.jobs[n].state == UNDEF && t'.jobs[n].state != UNDEF && t'.jobs[n].pid == pid
    ensures OnlyChanges(t, t', pid, t'.jobs[n].state)
  {
    SlotFound(t', n);
    forall q | q != pid ensures StateOf(t', q) == StateOf(t, q) { SameElsewhere(t, t', n, q); }
  }

  lemma AddJobWellFormed(t: Table, pid: int, state: JobState, cmdline: string)
    requires WellFormed(t) && pid > 0 && StateOf(t, pid) == UNDEF && state != UNDEF
    requires (state == FG ==> FgJob(t) == 0) && t.nextjid <= MAXJOBS
    ensures WellFormed(Table(t.jobs[t.nextjid - 1 := Job(pid, t.nextjid, state, cmdline)], t.nextjid + 1))
  {
    var n := t.nextjid - 1;
    var jobs := t.jobs[n := Job(pid, t.nextjid, state, cmdline)];
    MaxJidIs(jobs, n + 1);
    PidFound(t, pid);
    forall i | 0 <= i < MAXJOBS && t.jobs[i].state != UNDEF
      ensures t.jobs[i].pid != pid && (state == FG ==> t.jobs[i].state != FG)
    {
      SlotFound(t, i);
      if state == FG { assert !IS_FOREGROUND(t.jobs[i]); }
    }
  }

  /** Deleting the job of a pid: that pid has none afterwards, and nothing else changes. */
  lemma DeleteJobDeletes(t: Table, pid: int)
    requires WellFormed(t)
    ensures var r := DeleteJob(t, JobFromPid(t, pid));
            && r.Done? && WellFormed(r.table) && (r.value <==> StateOf(t, pid) != UNDEF)
            && OnlyChanges(t, r.table, pid, UNDEF)
  {
    PidFound(t, pid);
    if StateOf(t, pid) != UNDEF {
      var k := JobFromPid(t, pid) - 1;
      var t' := DeleteJob(t, k + 1).table;
      DeleteWellFormed(t, t', k);
      SlotCleared(t, t', k, pid);
    }
  }

  /** Two tables that agree outside one slot, which is of `pid` in one and free in the other. */
  lemma SlotCleared(t: Table, t': Table, k: nat, pid: int)
    requires WellFormed(t) && WellFormed(t') && k < MAXJOBS
    requires forall i :: 0 <= i < MAXJOBS && i != k ==> t'.jobs[i] == t.jobs[i]
    requires t.jobs[k].state != UNDEF && t.jobs[k].pid == pid && t'.jobs[k].state == UNDEF
    ensures OnlyChanges(t, t', pid, UNDEF)
  {
    forall q ensures StateOf(t', q) == if q == pid then UNDEF else StateOf(t, q) {
      if q == pid {
        assert forall i :: 0 <= i < MAXJOBS && t'.jobs[i].state != UNDEF ==> t'.jobs[i].pid != pid;
        PidFound(t', q);
      } else {
        SameElsewhere(t, t', k, q);
      }
    }
  }

  lemma DeleteWellFormed(t: Table, t': Table, k: nat)
    requires WellFormed(t) && k < MAXJOBS
    requires t'.jobs == t.jobs[k := Cleared(t.jobs[k])] && t'.nextjid == MaxJid(t'.jobs) + 1
    ensures WellFormed(t')
  {
  }

  /** Setting the state of the job of a pid aborts exactly for a pid without a job or for
      a second foreground job; otherwise only that pid changes. */
  lemma SetStateSets(t: Table, pid: int, state: JobState)
    requires WellFormed(t) && state != UNDEF
    ensures var r := SetState(t, JobFromPid(t, pid), state);
            && (r.Abort? <==> StateOf(t, pid) == UNDEF || (state == FG && FgJob(t) != 0))
            && (r.Done? ==> WellFormed(r.table)
                            && OnlyChanges(t, r.table, pid, state))
  {
    PidFound(t, pid);
    var r := SetState(t, JobFromPid(t, pid), state);
    if r.Done? {
      var k := JobFromPid(t, pid) - 1;
      SetWellFormed(t, k, state);
      SlotFound(r.table, k);
      forall q | q != pid ensures StateOf(r.table, q) == StateOf(t, q) { SameElsewhere(t, r.table, k, q); }
    }
  }

  lemma SetWellFormed(t: Table, k: nat, state: JobState)
    requires WellFormed(t) && k < MAXJOBS && t.jobs[k].state != UNDEF && state != UNDEF
    requires state == FG ==> FgJob(t) == 0
    ensures WellFormed(t.(jobs := t.jobs[k := t.jobs[k].(state := state)]))
  {
    var jobs := t.jobs[k := t.jobs[k].(state := state)];
    MaxJidIs(jobs, MaxJid(t.jobs));
    if state == FG {
      forall i | 0 <= i < MAXJOBS ensures t.jobs[i].state != FG { assert !IS_FOREGROUND(t.jobs[i]); }
    }
  }

  // ---- The jobs themselves ----

  /** The table as a map from pids to jobs. */
  function JobOf(t: Table, pid: int): Option<Job>
    requires |t.jobs| == MAXJOBS
  {
    var jid := JobFromPid(t, pid);
    if jid == 0 then None else Some(t.jobs[jid - 1])
  }

  /** From one table to the other, only the job of that pid changes. */
  ghost predicate OnlyJob(t: Table, t': Table, pid: int, job: Option<Job>)
    requires |t.jobs| == |t'.jobs| == MAXJOBS
  {
    forall q :: JobOf(t', q) == if q == pid then job else JobOf(t, q)
  }

  /** A job says its own pid and jid, and its state is the one the table shows. */
  lemma JobOfIs(t: Table, pid: int)
    requires WellFormed(t)
    ensures JobOf(t, pid).Some? <==> StateOf(t, pid) != UNDEF
    ensures JobOf(t, pid).Some? ==>
              var j := JobOf(t, pid).value;
              && j.pid == pid && j.jid == JobFromPid(t, pid) && j.state == StateOf(t, pid)
              && 1 <= j.jid < t.nextjid
  {
    PidFound(t, pid);
  }

  lemma JobAt(t: Table, i: nat)
    requires WellFormed(t) && i < MAXJOBS && t.jobs[i].state != UNDEF
    ensures JobOf(t, t.jobs[i].pid) == Some(t.jobs[i])
  {
    SlotFound(t, i);
  }

  /** Two tables that agree outside one slot have the same jobs of the pids of other slots. */
  lemma SameJobs(t: Table, t': Table, k: nat, q: int)
    requires WellFormed(t) && WellFormed(t') && k < MAXJOBS
    requires forall i :: 0 <= i < MAXJOBS && i != k ==> t'.jobs[i] == t.jobs[i]
    requires t.jobs[k].state != UNDEF ==> t.jobs[k].pid != q
    requires t'.jobs[k].state != UNDEF ==> t'.jobs[k].pid != q
    ensures JobOf(t', q) == JobOf(t, q)
  {
    PidFound(t, q);
    PidFound(t', q);
    if JobOf(t, q).Some? {
      SharedJob(t, t', k, q);
    } else if JobOf(t', q).Some? {
      SharedJob(t', t, k, q);
    }
  }

  /** A job in a slot that two tables share is the same in both. */
  lemma SharedJob(t: Table, t': Table, k: nat, q: int)
    requires WellFormed(t) && WellFormed(t')
    requires forall i :: 0 <= i < MAXJOBS && i != k ==> t'.jobs[i] == t.jobs[i]
    requires JobOf(t, q).Some? && JobFromPid(t, q) != k + 1
    ensures JobOf(t', q) == JobOf(t, q)
  {
    PidFound(t, q);
    JobAt(t', JobFromPid(t, q) - 1);
  }

  /** What add_job records of a new pid: the next jid, the state and the command line. It
      fails exactly for a pid or a state that is none, or a second foreground job. */
  lemma AddJobRecords(t: Table, pid: int, state: JobState, cmdline: string)
    requires WellFormed(t) && StateOf(t, pid) == UNDEF
    ensures var r := AddJob(t, pid, state, cmdline);
            && (r.Abort? <==> pid <= 0 || state == UNDEF || (state == FG && exists q :: StateOf(t, q) == FG))
            && (r.Done? && t.nextjid <= MAXJOBS ==>
                  |r.table.jobs| == MAXJOBS && OnlyJob(t, r.table, pid, Some(Job(pid, t.nextjid, state, cmdline))))
  {
    AddJobAborts(t, pid, state, cmdline);
    var r := AddJob(t, pid, state, cmdline);
    if r.Done? && t.nextjid <= MAXJOBS {
      AddJobWellFormed(t, pid, state, cmdline);
      SlotGiven(t, r.table, t.nextjid - 1, pid);
    }
  }

  lemma AddJobAborts(t: Table, pid: int, state: JobState, cmdline: string)
    requires WellFormed(t)
    ensures AddJob(t, pid, state, cmdline).Abort? <==>
            pid <= 0 || state == UNDEF || (state == FG && exists q :: StateOf(t, q) == FG)
    ensures state == FG ==> (FgJob(t) == 0 <==> forall q :: StateOf(t, q) != FG)
    ensures t.nextjid <= MAXJOBS ==> t.jobs[t.nextjid - 1].state == UNDEF
  {
    FgJobFinds(t);
    if t.nextjid <= MAXJOBS { FreeAbove(t, t.nextjid); }
  }

  lemma SlotGiven(t: Table, t': Table, k: nat, pid: int)
    requires WellFormed(t) && WellFormed(t') && k < MAXJOBS
    requires forall i :: 0 <= i < MAXJOBS && i != k ==> t'.jobs[i] == t.jobs[i]
    requires t.jobs[k].state == UNDEF && t'.jobs[k].state != UNDEF && t'.jobs[k].pid == pid
    ensures OnlyJob(t, t', pid, Some(t'.jobs[k]))
  {
    JobAt(t', k);
    forall q | q != pid ensures JobOf(t', q) == JobOf(t, q) { SameJobs(t, t', k, q); }
  }

  /** Deleting forgets one job, and no other one changes. */
  lemma DeleteJobForgets(t: Table, pid: int)
    requires WellFormed(t)
    ensures var r := DeleteJob(t, JobFromPid(t, pid));
            r.Done? && |r.table.jobs| == MAXJOBS && OnlyJob(t, r.table, pid, None)
  {
    DeleteJobDeletes(t, pid);
    PidFound(t, pid);
    var t', k := DeleteJob(t, JobFromPid(t, pid)).table, JobFromPid(t, pid);
    PidFound(t', pid);
    if k != 0 {
      forall q | q != pid ensures JobOf(t', q) == JobOf(t, q) { SameJobs(t, t', k - 1, q); }
    }
  }

  /** Setting a state keeps the jid and the command line of the job. */
  lemma SetStateKeepsRest(t: Table, pid: int, state: JobState)
    requires WellFormed(t) && state != UNDEF
    ensures var r := SetState(t, JobFromPid(t, pid), state);
            r.Done? ==>
              && JobOf(t, pid).Some? && |r.table.jobs| == MAXJOBS
              && OnlyJob(t, r.table, pid, Some(JobOf(t, pid).value.(state := state)))
  {
    SetStateSets(t, pid, state);
    PidFound(t, pid);
    var r, k := SetState(t, JobFromPid(t, pid), state), JobFromPid(t, pid);
    if r.Done? {
      JobAt(r.table, k - 1);
      forall q | q != pid ensures JobOf(r.table, q) == JobOf(t, q) { SameJobs(t, r.table, k - 1, q); }
    }
  }

  /** A jid that exists names the job of the pid in its slot, and every job is named by its own. */
  lemma JidNamesJob(t: Table, jid: int)
    requires WellFormed(t)
    ensures JobExists(t, jid) <==> exists p :: JobOf(t, p).Some? && JobOf(t, p).value.jid == jid
    ensures JobExists(t, jid) ==>
              var j := t.jobs[jid - 1];
              j.jid == jid && j.pid > 0 && JobOf(t, j.pid) == Some(j)
  {
    if JobExists(t, jid) {
      JobAt(t, jid - 1);
      assert JobOf(t, t.jobs[jid - 1].pid).Some? && JobOf(t, t.jobs[jid - 1].pid).value.jid == jid;
    } else if p :| JobOf(t, p).Some? && JobOf(t, p).value.jid == jid {
      PidFound(t, p);
      assert false;
    }
  }

  // ---- The operations, in place ----

  class JobList {
    const jobs: array<Job>
    var nextjid: nat

    ghost function Snapshot(): Table
      reads this, jobs
    {
      Table(jobs[..], nextjid)
    }

    ghost predicate Valid()
      reads this, jobs
    {
      jobs.Length == MAXJOBS
    }

    /** The list as init_job_list leaves it. */
    constructor ()
      ensures Valid() && fresh(jobs) && Snapshot() == InitTable()
    {
      jobs := new Job[MAXJOBS](_ => EMPTY_JOB);
      nextjid := 1;
      new;
      assert jobs[..] == seq(MAXJOBS, _ => EMPTY_JOB);
      for jid := 1 to MAXJOBS + 1
        invariant jobs[..] == seq(MAXJOBS, _ => EMPTY_JOB)
        modifies jobs
      {
        jobs[jid - 1] := Cleared(jobs[jid - 1]);
        jobs[jid - 1] := jobs[jid - 1].(cmdline := "");
      }
      nextjid := 1;
    }

    method FindMaxJid() returns (jid: nat)
      requires Valid()
      ensures jid == MaxJid(jobs[..])
    {
      jid := MAXJOBS;
      while jid >= 1
        invariant jid <= MAXJOBS && MaxJid(jobs[..]) == MaxJid(jobs[..jid])
      {
        if jobs[jid - 1].state != UNDEF {
          return;
        }
        assert jobs[..jid][..jid - 1] == jobs[..jid - 1];
        jid := jid - 1;
      }
    }

    method FindFgJob() returns (jid: nat)
      requires Valid()
      ensures jid == FgJob(Snapshot())
    {
      jid := 1;
      while jid <= MAXJOBS
        invariant 1 <= jid <= MAXJOBS + 1
        invariant forall k :: 0 <= k < jid - 1 ==> !IS_FOREGROUND(jobs[k])
      {
        if jobs[jid - 1].state == FG {
          assert IS_FOREGROUND(jobs[..][jid - 1]);
          return;
        }
        jid := jid + 1;
      }
      jid := 0;
    }

    method FindJobFromPid(pid: int) returns (jid: nat)
      requires Valid()
      ensures jid == JobFromPid(Snapshot(), pid)
    {
      if pid < 1 {
        return 0;
      }
      jid := 1;
      while jid <= MAXJOBS
        invariant 1 <= jid <= MAXJOBS + 1
        invariant forall k :: 0 <= k < jid - 1 ==> !HasPid(pid)(jobs[k])
      {
        if jobs[jid - 1].state != UNDEF && jobs[jid - 1].pid == pid {
          assert HasPid(pid)(jobs[..][jid - 1]);
          return;
        }
        jid := jid + 1;
      }
      jid := 0;
    }

    /** `aborted` stands for the process ending in abort(); the list is then irrelevant. */
    method Add(pid: int, state: JobState, cmdline: string) returns (aborted: bool, jid: nat)
      requires Valid()
      modifies this`nextjid, jobs
      ensures aborted <==> AddJob(old(Snapshot()), pid, state, cmdline).Abort?
      ensures !aborted ==> AddJob(old(Snapshot()), pid, state, cmdline) == Done(Snapshot(), jid)
    {
      aborted, jid := false, 0;
      var fg := FindFgJob();
      if !((state == FG && fg == 0) || state == BG || state == ST) || pid <= 0 || nextjid == 0 {
        aborted := true;
        return;
      }
      if nextjid > MAXJOBS {
        return;
      }
      if jobs[nextjid - 1].state != UNDEF {
        aborted := true;
        return;
      }
      jobs[nextjid - 1] := jobs[nextjid - 1].(jid := nextjid, pid := pid, state := state);
      jobs[nextjid - 1] := jobs[nextjid - 1].(cmdline := cmdline);
      jid := nextjid;
      nextjid := nextjid + 1;
    }

    method Delete(jid: int) returns (ok: bool)
      requires Valid()
      modifies this`nextjid, jobs
      ensures DeleteJob(old(Snapshot()), jid) == Done(Snapshot(), ok)
    {
      if jid < 1 || jid > MAXJOBS || jobs[jid - 1].state == UNDEF {
        return false;
      }
      jobs[jid - 1] := Cleared(jobs[jid - 1]);
      var max := FindMaxJid();
      nextjid := max + 1;
      ok := true;
    }

    method ChangeState(jid: int, state: JobState) returns (aborted: bool)
      requires Valid()
      modifies jobs
      ensures aborted <==> SetState(old(Snapshot()), jid, state).Abort?
      ensures !aborted ==> SetState(old(Snapshot()), jid, state) == Done(Snapshot(), ())
    {
      if jid < 1 || jid > MAXJOBS || jobs[jid - 1].state == UNDEF {
        return true;
      }
      var fg := FindFgJob();
      if (state != FG && state != BG && state != ST) || (state == FG && fg != 0) {
        return true;
      }
      jobs[jid - 1] := jobs[jid - 1].(state := state);
      aborted := false;
    }
  }
}
