/** The job registry of dsh-tmp.c: the list of jobs that starts at first_job and the
    twenty-slot job_array of process-group ids, with the walks and updates the shell
    runs over them.  Each reap by waitpid is supplied as a value. */
module DshTmp {

  import opened JobModel
  import opened Lexer
  import opened TmpParser

  /** The number of slots main allocates for job_array and the loops walk. */
  const JobSlots: nat := 20

  /** A position in the job list and a position in that job's pipeline. */
  datatype Found = Found(job: nat, proc: nat)

  /** What waitpid hands back: the child's pid and what happened to it. */
  datatype Reap = Reap(pid: int, status: WaitStatus)

  /** The return value of mark_process_status and the job list after it. */
  datatype Marked = Marked(code: int, jobs: seq<Job>)

  /** How many reaps wait_for_job took and the job list after them. */
  datatype Waited = Waited(used: nat, jobs: seq<Job>)

  /** One line printed by list_jobs: the slot, the status word and the command text,
      and whether the job was then freed because its first process had completed. */
  datatype Listed = Listed(slot: nat, status: string, commandinfo: string, freed: bool)

  /** The state list_jobs walks: the job list, the slots, what has been printed, and
      whether a NULL pointer was dereferenced (which ends the shell). */
  datatype Listing = Listing(jobs: seq<Job>, slots: seq<int>, listed: seq<Listed>, crashed: bool)

  /** The list with the job at position k taken out. */
  function Without(jobs: seq<Job>, k: nat): (r: seq<Job>)
    requires k < |jobs|
    ensures |r| == |jobs| - 1
    ensures forall n :: 0 <= n < k ==> r[n] == jobs[n]
    ensures forall n :: k <= n < |r| ==> r[n] == jobs[n + 1]
  {
    jobs[..k] + jobs[k + 1..]
  }

  /** remove_and_free(j) for the job at position k.  find_prev_job finds no node before
      the head, so for k = 0 the head is unlinked, unless it is the only job, in which
      case it is freed but first_job still points at it.  For any other job the code
      unlinks j->next, the job after j, and leaves j in place. */
  function Unlinked(jobs: seq<Job>, k: nat): (r: seq<Job>)
    requires k < |jobs|
    ensures r == jobs || exists m :: 0 <= m < |jobs| && r == Without(jobs, m)
    ensures |jobs| == 1 ==> r == jobs
    ensures forall j :: j in r ==> j in jobs
  {
    if k == 0 then (if |jobs| > 1 then Without(jobs, 0) else jobs)
    else if k + 1 < |jobs| then Without(jobs, k + 1)
    else jobs
  }

  /** Removing the head of a list of two or more unlinks exactly that job. */
  lemma RemoveHead(jobs: seq<Job>)
    requires |jobs| > 1
    ensures Unlinked(jobs, 0) == jobs[1..]
  {
  }

  /** Removing any job but the head leaves that job, and every job before it, where
      it was; the job removed, if any, is its successor. */
  lemma RemoveKeepsTarget(jobs: seq<Job>, k: nat)
    requires 1 <= k < |jobs|
    ensures Unlinked(jobs, k)[..k + 1] == jobs[..k + 1]
    ensures k + 1 < |jobs| ==> Unlinked(jobs, k)[k + 1..] == jobs[k + 2..]
    ensures k + 1 == |jobs| ==> Unlinked(jobs, k) == jobs
  {
  }

  /** The first process, in list order and then pipeline order, whose pid is `pid`. */
  function FirstWithPid(jobs: seq<Job>, pid: int): (r: Option<Found>)
    ensures r.Some? ==> r.value.job < |jobs| && r.value.proc < |jobs[r.value.job].procs|
    ensures r.Some? ==> jobs[r.value.job].procs[r.value.proc].pid == pid
    ensures r.Some? ==> forall n, i :: 0 <= n < r.value.job && 0 <= i < |jobs[n].procs| ==> jobs[n].procs[i].pid != pid
    ensures r.Some? ==> forall i :: 0 <= i < r.value.proc ==> jobs[r.value.job].procs[i].pid != pid
    ensures r.None? <==> forall n, i :: 0 <= n < |jobs| && 0 <= i < |jobs[n].procs| ==> jobs[n].procs[i].pid != pid
  {
    if jobs == [] then None
    else match FirstProcWithPid(jobs[0].procs, pid)
      case Some(i) => Some(Found(0, i))
      case None =>
        match FirstWithPid(jobs[1..], pid)
        case None => None
        case Some(f) => Some(Found(f.job + 1, f.proc))
  }

  /** The first process of a pipeline whose pid is `pid`. */
  function FirstProcWithPid(procs: seq<Process>, pid: int): (r: Option<nat>)
    ensures r.Some? ==> r.value < |procs| && procs[r.value].pid == pid
    ensures r.Some? ==> forall i :: 0 <= i < r.value ==> procs[i].pid != pid
    ensures r.None? <==> forall i :: 0 <= i < |procs| ==> procs[i].pid != pid
  {
    if procs == [] then None
    else if procs[0].pid == pid then Some(0)
    else match FirstProcWithPid(procs[1..], pid)
      case None => None
      case Some(i) => Some(i + 1)
  }

  /** A process record after waitpid reported `st` for it: the status is stored, and the
      process is marked stopped if it stopped and completed otherwise. */
  function Reaped(p: Process, st: WaitStatus): (q: Process)
    ensures q.status == Some(st) && q.pid == p.pid && q.argv == p.argv
    ensures st.Stopped? ==> q.stopped && q.completed == p.completed
    ensures !st.Stopped? ==> q.completed && q.stopped == p.stopped
  {
    if st.Stopped? then p.(status := Some(st), stopped := true)
    else p.(status := Some(st), completed := true)
  }

  /** The job with its i-th process replaced. */
  function SetProc(j: Job, i: nat, p: Process): (r: Job)
    requires i < |j.procs|
    ensures r.pgid == j.pgid && |r.procs| == |j.procs| && r.procs[i] == p
    ensures forall n :: 0 <= n < |j.procs| && n != i ==> r.procs[n] == j.procs[n]
  {
    j.(procs := j.procs[i := p])
  }

  /** mark_process_status: for a positive pid, record the status in the first process
      with that pid and return 0; -1 when no process has it, and -1 for a pid of 0 or
      less (waitpid found nothing or failed). */
  function Mark(jobs: seq<Job>, pid: int, st: WaitStatus): (r: Marked)
    ensures |r.jobs| == |jobs|
  {
    if pid <= 0 then Marked(-1, jobs)
    else match FirstWithPid(jobs, pid)
      case None => Marked(-1, jobs)
      case Some(f) =>
        Marked(0, jobs[f.job := SetProc(jobs[f.job], f.proc, Reaped(jobs[f.job].procs[f.proc], st))])
  }

  /** Some process in the list has the pid. */
  predicate HasPid(jobs: seq<Job>, pid: int) {
    exists n, i :: 0 <= n < |jobs| && 0 <= i < |jobs[n].procs| && jobs[n].procs[i].pid == pid
  }

  /** mark_process_status succeeds exactly for a positive pid that some process has,
      and fails without touching the list otherwise. */
  lemma MarkSucceedsIff(jobs: seq<Job>, pid: int, st: WaitStatus)
    ensures Mark(jobs, pid, st).code == 0 <==> pid > 0 && HasPid(jobs, pid)
    ensures Mark(jobs, pid, st).code != 0 ==> Mark(jobs, pid, st).code == -1 && Mark(jobs, pid, st).jobs == jobs
  {
    if pid > 0 && HasPid(jobs, pid) {
      var n, i :| 0 <= n < |jobs| && 0 <= i < |jobs[n].procs| && jobs[n].procs[i].pid == pid;
      assert FirstWithPid(jobs, pid).Some?;
    }
  }

  /** A successful mark changes one process record, the first with the pid, and only
      its status flags: every job keeps its pipeline's length and every other process,
      and every field of every job other than its pipeline stays as it was. */
  lemma MarkChangesOneProcess(jobs: seq<Job>, pid: int, st: WaitStatus)
    requires Mark(jobs, pid, st).code == 0
    ensures FirstWithPid(jobs, pid).Some?
    ensures
      var f := FirstWithPid(jobs, pid).value;
      var after := Mark(jobs, pid, st).jobs;
      after[f.job].procs[f.proc] == Reaped(jobs[f.job].procs[f.proc], st) &&
      (forall n, i :: 0 <= n < |jobs| && 0 <= i < |jobs[n].procs| && (n, i) != (f.job, f.proc) ==>
        |after[n].procs| == |jobs[n].procs| && after[n].procs[i] == jobs[n].procs[i])
    ensures forall n :: 0 <= n < |jobs| ==> Mark(jobs, pid, st).jobs[n].(procs := jobs[n].procs) == jobs[n]
  {
  }

  /** A mark keeps every job's pgid and every process's pid. */
  lemma MarkKeepsIds(jobs: seq<Job>, pid: int, st: WaitStatus)
    ensures forall n :: 0 <= n < |jobs| ==>
      Mark(jobs, pid, st).jobs[n].pgid == jobs[n].pgid &&
      |Mark(jobs, pid, st).jobs[n].procs| == |jobs[n].procs| &&
      forall i :: 0 <= i < |jobs[n].procs| ==> Mark(jobs, pid, st).jobs[n].procs[i].pid == jobs[n].procs[i].pid
  {
  }

  /** The wait loop's condition after marking `reap`: the mark succeeded and the job at
      position k is neither stopped nor completed. */
  predicate GoesOn(jobs: seq<Job>, k: nat, reap: Reap)
    requires k < |jobs|
  {
    var m := Mark(jobs, reap.pid, reap.status);
    m.code == 0 && !JobStopped(m.jobs[k]) && !JobCompleted(m.jobs[k])
  }

  /** wait_for_job for the job at position k: take the next reap (none left means
      waitpid fails, so the mark fails), mark it, and go on while the mark succeeded
      and the job is neither stopped nor completed. */
  function WaitFrom(jobs: seq<Job>, k: nat, reaps: seq<Reap>): (r: Waited)
    requires k < |jobs|
    ensures r.used <= |reaps| && |r.jobs| == |jobs|
    decreases |reaps|
  {
    if reaps == [] then Waited(0, jobs)
    else
      var m := Mark(jobs, reaps[0].pid, reaps[0].status);
      if GoesOn(jobs, k, reaps[0]) then
        var w := WaitFrom(m.jobs, k, reaps[1..]);
        Waited(w.used + 1, w.jobs)
      else Waited(1, m.jobs)
  }

  /** A reap for a known process keeps every pid known. */
  lemma MarkKeepsHasPid(jobs: seq<Job>, pid: int, st: WaitStatus, other: int)
    requires HasPid(jobs, other)
    ensures HasPid(Mark(jobs, pid, st).jobs, other)
  {
    var n, i :| 0 <= n < |jobs| && 0 <= i < |jobs[n].procs| && jobs[n].procs[i].pid == other;
    MarkKeepsIds(jobs, pid, st);
    assert Mark(jobs, pid, st).jobs[n].procs[i].pid == other;
  }

  /** When every reap is for a child the list knows, wait_for_job returns only once the
      job has stopped (completed included) or the reaps have run out. */
  lemma {:induction false} WaitEndsStoppedOrDrained(jobs: seq<Job>, k: nat, reaps: seq<Reap>)
    requires k < |jobs|
    requires forall n :: 0 <= n < |reaps| ==> reaps[n].pid > 0 && HasPid(jobs, reaps[n].pid)
    ensures WaitFrom(jobs, k, reaps).used == |reaps| || JobStopped(WaitFrom(jobs, k, reaps).jobs[k])
    decreases |reaps|
  {
    if reaps != [] {
      var m := Mark(jobs, reaps[0].pid, reaps[0].status);
      MarkSucceedsIff(jobs, reaps[0].pid, reaps[0].status);
      CompletedImpliesStopped(m.jobs[k]);
      if !JobStopped(m.jobs[k]) {
        forall n | 0 <= n < |reaps[1..]|
          ensures reaps[1..][n].pid > 0 && HasPid(m.jobs, reaps[1..][n].pid)
        {
          MarkKeepsHasPid(jobs, reaps[0].pid, reaps[0].status, reaps[n + 1].pid);
        }
        WaitEndsStoppedOrDrained(m.jobs, k, reaps[1..]);
      }
    }
  }

  /** The job list after marking each of the reaps in turn, whatever the marks return. */
  function MarkAll(jobs: seq<Job>, reaps: seq<Reap>): (r: seq<Job>)
    ensures |r| == |jobs|
    decreases |reaps|
  {
    if reaps == [] then jobs
    else MarkAll(Mark(jobs, reaps[0].pid, reaps[0].status).jobs, reaps[1..])
  }

  /** wait_for_job takes reaps up to and including the first after which the loop's
      condition fails, or all of them: each reap before the last one taken succeeded
      and left the job neither stopped nor completed, the last one taken failed or left
      the job stopped or completed, and the list is the one marked by exactly the reaps
      taken, in order. */
  lemma WaitFromIsMarks(jobs: seq<Job>, k: nat, reaps: seq<Reap>)
    requires k < |jobs|
    ensures var w := WaitFrom(jobs, k, reaps);
      w.jobs == MarkAll(jobs, reaps[..w.used]) &&
      (reaps == [] <==> w.used == 0) &&
      (forall u :: 0 <= u < w.used - 1 ==> GoesOn(MarkAll(jobs, reaps[..u]), k, reaps[u])) &&
      (0 < w.used < |reaps| ==> !GoesOn(MarkAll(jobs, reaps[..w.used - 1]), k, reaps[w.used - 1]))
  {
    WaitMarks(jobs, k, reaps);
    WaitGoesOnBefore(jobs, k, reaps);
    WaitStopsAtLast(jobs, k, reaps);
  }

  /** The list wait_for_job leaves is the one marked by the reaps it took. */
  lemma {:induction false} WaitMarks(jobs: seq<Job>, k: nat, reaps: seq<Reap>)
    requires k < |jobs|
    ensures WaitFrom(jobs, k, reaps).jobs == MarkAll(jobs, reaps[..WaitFrom(jobs, k, reaps).used])
    decreases |reaps|
  {
    if reaps != [] {
      var m := Mark(jobs, reaps[0].pid, reaps[0].status).jobs;
      if GoesOn(jobs, k, reaps[0]) {
        WaitMarks(m, k, reaps[1..]);
        MarkAllHead(jobs, reaps, WaitFrom(m, k, reaps[1..]).used);
      } else {
        MarkAllHead(jobs, reaps, 0);
      }
    }
  }

  /** Every reap before the last one wait_for_job took let the loop go on. */
  lemma {:induction false} WaitGoesOnBefore(jobs: seq<Job>, k: nat, reaps: seq<Reap>)
    requires k < |jobs|
    ensures var w := WaitFrom(jobs, k, reaps);
      forall u :: 0 <= u < w.used - 1 ==> GoesOn(MarkAll(jobs, reaps[..u]), k, reaps[u])
    decreases |reaps|
  {
    if reaps != [] && GoesOn(jobs, k, reaps[0]) {
      var m := Mark(jobs, reaps[0].pid, reaps[0].status).jobs;
      var w := WaitFrom(m, k, reaps[1..]);
      WaitGoesOnBefore(m, k, reaps[1..]);
      forall u | 0 <= u < w.used
        ensures GoesOn(MarkAll(jobs, reaps[..u]), k, reaps[u])
      {
        if u == 0 {
          MarkAllHead(jobs, reaps, 0);
        } else {
          MarkAllHead(jobs, reaps, u - 1);
          assert reaps[1..][u - 1] == reaps[u];
        }
      }
    }
  }

  /** The last reap wait_for_job took, unless it took them all, stopped the loop. */
  lemma {:induction false} WaitStopsAtLast(jobs: seq<Job>, k: nat, reaps: seq<Reap>)
    requires k < |jobs|
    ensures var w := WaitFrom(jobs, k, reaps);
      (reaps == [] <==> w.used == 0) &&
      (0 < w.used < |reaps| ==> !GoesOn(MarkAll(jobs, reaps[..w.used - 1]), k, reaps[w.used - 1]))
    decreases |reaps|
  {
    if reaps != [] {
      var m := Mark(jobs, reaps[0].pid, reaps[0].status).jobs;
      if GoesOn(jobs, k, reaps[0]) {
        var w := WaitFrom(m, k, reaps[1..]);
        WaitStopsAtLast(m, k, reaps[1..]);
        if 0 < w.used {
          MarkAllHead(jobs, reaps, w.used - 1);
          assert reaps[1..][w.used - 1] == reaps[w.used];
        }
      } else {
        MarkAllHead(jobs, reaps, 0);
      }
    }
  }

  /** Marking the first u + 1 reaps is marking the first and then the next u. */
  lemma MarkAllHead(jobs: seq<Job>, reaps: seq<Reap>, u: nat)
    requires u < |reaps|
    ensures MarkAll(jobs, reaps[..u + 1]) == MarkAll(Mark(jobs, reaps[0].pid, reaps[0].status).jobs, reaps[1..][..u])
    ensures MarkAll(jobs, reaps[..0]) == jobs
  {
    assert reaps[..u + 1][0] == reaps[0];
    assert reaps[..u + 1][1..] == reaps[1..][..u];
    assert reaps[..0] == [];
  }

  /** The loop is a do-while: with a reap to take, it always takes at least one, even
      for a job that has already stopped. */
  lemma WaitTakesOne(jobs: seq<Job>, k: nat, reaps: seq<Reap>)
    requires k < |jobs| && reaps != []
    ensures WaitFrom(jobs, k, reaps).used >= 1
  {
  }

  /** Waiting changes no pgid, no pipeline length and no pid. */
  lemma {:induction false} WaitKeepsIds(jobs: seq<Job>, k: nat, reaps: seq<Reap>)
    requires k < |jobs|
    ensures forall n :: 0 <= n < |jobs| ==>
      WaitFrom(jobs, k, reaps).jobs[n].pgid == jobs[n].pgid &&
      |WaitFrom(jobs, k, reaps).jobs[n].procs| == |jobs[n].procs|
    decreases |reaps|
  {
    if reaps != [] {
      var m := Mark(jobs, reaps[0].pid, reaps[0].status);
      MarkKeepsIds(jobs, reaps[0].pid, reaps[0].status);
      WaitKeepsIds(m.jobs, k, reaps[1..]);
    }
  }

  /** The status word list_jobs prints for a job, from its first process: a stopped
      process reads "Stopped" even when it has also completed. */
  function StatusLabel(p: Process): (s: string)
    ensures s == "Stopped" <==> p.stopped
    ensures s == "Completed" <==> !p.stopped && p.completed
    ensures s == "Running" <==> !p.stopped && !p.completed
  {
    if p.stopped then "Stopped" else if p.completed then "Completed" else "Running"
  }

  /** Line e is what list_jobs prints for job j found by the pgid in a slot: the status
      word and the freeing come from j's first process, and the text from j. */
  predicate Shows(e: Listed, j: Job, pgid: int) {
    j.pgid == pgid && j.procs != [] && e.status == StatusLabel(j.procs[0]) &&
    e.commandinfo == j.commandinfo && e.freed == j.procs[0].completed
  }

  /** One pass of list_jobs over slot i.  An empty slot changes nothing.  A slot whose
      pgid no job has, or whose job has no process, dereferences NULL and changes
      nothing else.  Otherwise one line is printed for the first job of the list with
      that pgid, the one find_job returns; when that job's first process completed, the
      slot is cleared and remove_and_free is applied to that job, and otherwise the
      slots and the list are kept. */
  function ListSlot(l: Listing, i: nat): (r: Listing)
    requires i < |l.slots|
    ensures |r.slots| == |l.slots|
    ensures l.slots[i] == 0 ==> r == l
    ensures r.crashed && !l.crashed ==>
      (l.slots[i] != 0 &&
       (FirstWithPgid(l.jobs, l.slots[i]).None? || l.jobs[FirstWithPgid(l.jobs, l.slots[i]).value].procs == []))
    ensures !r.crashed && l.slots[i] != 0 ==>
      (FirstWithPgid(l.jobs, l.slots[i]).Some? &&
       |r.listed| == |l.listed| + 1 && r.listed[..|l.listed|] == l.listed && r.listed[|l.listed|].slot == i &&
       Shows(r.listed[|l.listed|], l.jobs[FirstWithPgid(l.jobs, l.slots[i]).value], l.slots[i]) &&
       r.slots == (if r.listed[|l.listed|].freed then l.slots[i := 0] else l.slots) &&
       r.jobs == (if r.listed[|l.listed|].freed then Unlinked(l.jobs, FirstWithPgid(l.jobs, l.slots[i]).value) else l.jobs))
    ensures r.crashed ==> r.listed == l.listed && r.slots == l.slots && r.jobs == l.jobs
    ensures forall j :: j in r.jobs ==> j in l.jobs
  {
    if l.slots[i] == 0 then l
    else match FirstWithPgid(l.jobs, l.slots[i])
      case None => l.(crashed := true)
      case Some(k) =>
        if l.jobs[k].procs == [] then l.(crashed := true)
        else
          var p := l.jobs[k].procs[0];
          var e := Listed(i, StatusLabel(p), l.jobs[k].commandinfo, p.completed);
          var listed := l.listed + [e];
          if p.completed then Listing(Unlinked(l.jobs, k), l.slots[i := 0], listed, false)
          else Listing(l.jobs, l.slots, listed, false)
  }

  /** list_jobs from slot i to the last slot, stopping at a NULL dereference.  Earlier
      lines are kept, slots are only cleared, and the list only loses jobs, none of them
      when no line printed from slot i on freed its job. */
  function ListFrom(l: Listing, i: nat): (r: Listing)
    requires |l.slots| == JobSlots
    ensures |r.slots| == JobSlots
    ensures |l.listed| <= |r.listed| && r.listed[..|l.listed|] == l.listed
    ensures forall s :: 0 <= s < JobSlots ==> r.slots[s] == l.slots[s] || r.slots[s] == 0
    ensures forall j :: j in r.jobs ==> j in l.jobs
    ensures (forall n :: |l.listed| <= n < |r.listed| ==> !r.listed[n].freed) ==> r.jobs == l.jobs
    decreases JobSlots - i
  {
    if i >= JobSlots || l.crashed then l
    else
      var m := ListSlot(l, i);
      var r := ListFrom(m, i + 1);
      assert l.slots[i] != 0 && !m.crashed ==> r.listed[|l.listed|] == m.listed[|l.listed|];
      r
  }

  /** list_jobs on the given list and slots. */
  function ListJobsSpec(jobs: seq<Job>, slots: seq<int>): Listing
    requires |slots| == JobSlots
  {
    ListFrom(Listing(jobs, slots, [], false), 0)
  }

  /** The part of ListInv about order: slots are only cleared, and only before slot i;
      each line printed is for an occupied slot before i, in slot order, and its status
      word agrees with its freeing. */
  predicate ListOrder(slots0: seq<int>, l: Listing, i: nat) {
    |slots0| == JobSlots && |l.slots| == JobSlots && i <= JobSlots &&
    (forall s :: i <= s < JobSlots ==> l.slots[s] == slots0[s]) &&
    (forall s :: 0 <= s < JobSlots ==> l.slots[s] == slots0[s] || l.slots[s] == 0) &&
    (forall n :: 0 <= n < |l.listed| ==> l.listed[n].slot < i && slots0[l.listed[n].slot] != 0) &&
    (forall n, m :: 0 <= n < m < |l.listed| ==> l.listed[n].slot < l.listed[m].slot) &&
    (forall n :: 0 <= n < |l.listed| && l.listed[n].status == "Completed" ==> l.listed[n].freed) &&
    (forall n :: 0 <= n < |l.listed| && l.listed[n].status == "Running" ==> !l.listed[n].freed)
  }

  /** What list_jobs keeps true of the slots and of what it has printed, after slot i-1,
      relative to the slots it started from: ListOrder, and a slot is cleared exactly
      when a line printed for it freed its job. */
  predicate ListInv(slots0: seq<int>, l: Listing, i: nat) {
    ListOrder(slots0, l, i) &&
    (forall n :: 0 <= n < |l.listed| && l.listed[n].freed ==> l.slots[l.listed[n].slot] == 0) &&
    (forall n :: 0 <= n < |l.listed| && !l.listed[n].freed ==> l.slots[l.listed[n].slot] == slots0[l.listed[n].slot]) &&
    (forall s :: 0 <= s < JobSlots && l.slots[s] != slots0[s] ==>
      exists n :: 0 <= n < |l.listed| && l.listed[n].slot == s && l.listed[n].freed) &&
    (!l.crashed ==> forall s :: 0 <= s < i && slots0[s] != 0 ==> exists n :: 0 <= n < |l.listed| && l.listed[n].slot == s)
  }

  lemma ListSlotInv(slots0: seq<int>, l: Listing, i: nat)
    requires ListInv(slots0, l, i) && i < JobSlots && !l.crashed
    ensures ListInv(slots0, ListSlot(l, i), i + 1)
  {
    var r := ListSlot(l, i);
    if l.slots[i] == 0 {
      assert r == l;
    } else if r.crashed {
      assert r.slots == l.slots && r.listed == l.listed;
    } else {
      ListSlotAppends(slots0, l, i);
    }
  }

  /** The pass over an occupied slot that prints a line keeps ListInv. */
  lemma ListSlotAppends(slots0: seq<int>, l: Listing, i: nat)
    requires ListInv(slots0, l, i) && i < JobSlots && !l.crashed && l.slots[i] != 0
    requires !ListSlot(l, i).crashed
    ensures ListInv(slots0, ListSlot(l, i), i + 1)
  {
    var e := ListSlotEntry(l, i);
    AppendKeepsInv(slots0, l, ListSlot(l, i), i, e);
  }

  /** The line the pass over an occupied slot prints, and the slots after it. */
  lemma ListSlotEntry(l: Listing, i: nat) returns (e: Listed)
    requires i < |l.slots| && l.slots[i] != 0 && !ListSlot(l, i).crashed
    ensures ListSlot(l, i).listed == l.listed + [e] && e.slot == i
    ensures ListSlot(l, i).slots == if e.freed then l.slots[i := 0] else l.slots
    ensures e.status == "Completed" ==> e.freed
    ensures e.status == "Running" ==> !e.freed
  {
    var k := FirstWithPgid(l.jobs, l.slots[i]).value;
    var p := l.jobs[k].procs[0];
    e := Listed(i, StatusLabel(p), l.jobs[k].commandinfo, p.completed);
  }

  /** Printing line e for occupied slot i, and clearing the slot when e is freed, keeps
      ListInv. */
  lemma AppendKeepsInv(slots0: seq<int>, l: Listing, r: Listing, i: nat, e: Listed)
    requires ListInv(slots0, l, i) && i < JobSlots && !l.crashed && l.slots[i] != 0 && !r.crashed
    requires r.listed == l.listed + [e] && e.slot == i
    requires r.slots == if e.freed then l.slots[i := 0] else l.slots
    requires e.status == "Completed" ==> e.freed
    requires e.status == "Running" ==> !e.freed
    ensures ListInv(slots0, r, i + 1)
  {
    AppendKeepsOrder(slots0, l, r, i, e);
    assert forall n :: 0 <= n < |l.listed| ==> r.listed[n] == l.listed[n];
    assert r.listed[|l.listed|] == e;
    assert forall s :: 0 <= s < JobSlots && s != i ==> r.slots[s] == l.slots[s];
    forall s | 0 <= s < JobSlots && r.slots[s] != slots0[s]
      ensures exists n :: 0 <= n < |r.listed| && r.listed[n].slot == s && r.listed[n].freed
    {
      if s == i {
        assert r.listed[|l.listed|] == e;
      } else {
        var n :| 0 <= n < |l.listed| && l.listed[n].slot == s && l.listed[n].freed;
        assert r.listed[n] == l.listed[n];
      }
    }
    forall s | 0 <= s < i + 1 && slots0[s] != 0
      ensures exists n :: 0 <= n < |r.listed| && r.listed[n].slot == s
    {
      if s == i {
        assert r.listed[|l.listed|] == e;
      } else {
        var n :| 0 <= n < |l.listed| && l.listed[n].slot == s;
        assert r.listed[n] == l.listed[n];
      }
    }
  }

  /** Printing line e for occupied slot i, and clearing the slot when e is freed, keeps
      ListOrder. */
  lemma AppendKeepsOrder(slots0: seq<int>, l: Listing, r: Listing, i: nat, e: Listed)
    requires ListOrder(slots0, l, i) && i < JobSlots && slots0[i] != 0
    requires r.listed == l.listed + [e] && e.slot == i
    requires r.slots == if e.freed then l.slots[i := 0] else l.slots
    requires e.status == "Completed" ==> e.freed
    requires e.status == "Running" ==> !e.freed
    ensures ListOrder(slots0, r, i + 1)
  {
    assert forall n :: 0 <= n < |l.listed| ==> r.listed[n] == l.listed[n];
    assert r.listed[|l.listed|] == e;
  }

  lemma {:induction false} ListFromInv(slots0: seq<int>, l: Listing, i: nat)
    requires ListInv(slots0, l, i)
    ensures ListInv(slots0, ListFrom(l, i), JobSlots)
    decreases JobSlots - i
  {
    if i < JobSlots && !l.crashed {
      ListSlotInv(slots0, l, i);
      ListFromInv(slots0, ListSlot(l, i), i + 1);
    } else if l.crashed {
      assert ListInv(slots0, l, JobSlots);
    }
  }

  /** Every line printed so far shows a job of the list list_jobs started from, found by
      the pgid its slot held then; and the list holds only jobs it started with. */
  predicate ListShows(jobs0: seq<Job>, slots0: seq<int>, l: Listing) {
    (forall j :: j in l.jobs ==> j in jobs0) &&
    (forall n :: 0 <= n < |l.listed| ==>
      l.listed[n].slot < |slots0| && exists j :: j in jobs0 && Shows(l.listed[n], j, slots0[l.listed[n].slot]))
  }

  lemma ListSlotShows(jobs0: seq<Job>, slots0: seq<int>, l: Listing, i: nat)
    requires ListShows(jobs0, slots0, l) && i < |l.slots| == |slots0| && l.slots[i] == slots0[i]
    ensures ListShows(jobs0, slots0, ListSlot(l, i))
  {
    var r := ListSlot(l, i);
    if l.slots[i] != 0 && !r.crashed {
      var e := r.listed[|l.listed|];
      var j := l.jobs[FirstWithPgid(l.jobs, l.slots[i]).value];
      assert r.listed == l.listed + [e];
      AppendShows(jobs0, slots0, l, r, i, e, j);
    }
  }

  /** Printing line e for slot i, which shows a job j of the list, keeps ListShows. */
  lemma AppendShows(jobs0: seq<Job>, slots0: seq<int>, l: Listing, r: Listing, i: nat, e: Listed, j: Job)
    requires ListShows(jobs0, slots0, l) && i < |slots0|
    requires r.listed == l.listed + [e] && e.slot == i && (forall j :: j in r.jobs ==> j in l.jobs)
    requires j in l.jobs && Shows(e, j, slots0[i])
    ensures ListShows(jobs0, slots0, r)
  {
    forall n | 0 <= n < |r.listed|
      ensures r.listed[n].slot < |slots0| && exists j :: j in jobs0 && Shows(r.listed[n], j, slots0[r.listed[n].slot])
    {
      if n < |l.listed| {
        assert r.listed[n] == l.listed[n];
      } else {
        assert r.listed[n] == e && j in jobs0;
      }
    }
  }

  lemma {:induction false} ListFromShows(jobs0: seq<Job>, slots0: seq<int>, l: Listing, i: nat)
    requires ListInv(slots0, l, i) && ListShows(jobs0, slots0, l)
    ensures ListShows(jobs0, slots0, ListFrom(l, i))
    decreases JobSlots - i
  {
    if i < JobSlots && !l.crashed {
      ListSlotInv(slots0, l, i);
      ListSlotShows(jobs0, slots0, l, i);
      ListFromShows(jobs0, slots0, ListSlot(l, i), i + 1);
    }
  }

  /** What list_jobs does to the slots and what it prints: slots are only ever cleared;
      each line is for a distinct occupied slot, in slot order; the slot of a printed
      job whose first process had completed is cleared, and every other slot keeps its
      value; a job printed as "Completed" is one of those freed and one printed as
      "Running" is not; unless a NULL was dereferenced, every occupied slot was
      printed; each line shows a job of the list whose pgid its slot held, with the
      status word of that job's first process, its text, and the slot cleared exactly
      when that process had completed; and the list only loses jobs, and none when no
      line freed its job. */
  lemma ListJobsEffect(jobs: seq<Job>, slots: seq<int>)
    requires |slots| == JobSlots
    ensures
      var r := ListJobsSpec(jobs, slots);
      (forall s :: 0 <= s < JobSlots ==> r.slots[s] == slots[s] || r.slots[s] == 0) &&
      (forall n :: 0 <= n < |r.listed| ==> r.listed[n].slot < JobSlots && slots[r.listed[n].slot] != 0) &&
      (forall n, m :: 0 <= n < m < |r.listed| ==> r.listed[n].slot < r.listed[m].slot) &&
      (forall n :: 0 <= n < |r.listed| && r.listed[n].freed ==> r.slots[r.listed[n].slot] == 0) &&
      (forall n :: 0 <= n < |r.listed| && !r.listed[n].freed ==> r.slots[r.listed[n].slot] == slots[r.listed[n].slot]) &&
      (forall s :: 0 <= s < JobSlots && r.slots[s] != slots[s] ==>
        exists n :: 0 <= n < |r.listed| && r.listed[n].slot == s && r.listed[n].freed) &&
      (forall n :: 0 <= n < |r.listed| && r.listed[n].status == "Completed" ==> r.listed[n].freed) &&
      (forall n :: 0 <= n < |r.listed| && r.listed[n].status == "Running" ==> !r.listed[n].freed) &&
      (!r.crashed ==> forall s :: 0 <= s < JobSlots && slots[s] != 0 ==> exists n :: 0 <= n < |r.listed| && r.listed[n].slot == s)
    ensures
      var r := ListJobsSpec(jobs, slots);
      (forall j :: j in r.jobs ==> j in jobs) &&
      (forall n :: 0 <= n < |r.listed| ==> exists j :: j in jobs && Shows(r.listed[n], j, slots[r.listed[n].slot]))
    ensures
      var r := ListJobsSpec(jobs, slots);
      (forall n :: 0 <= n < |r.listed| ==> !r.listed[n].freed) ==> r.jobs == jobs
  {
    ListFromInv(slots, Listing(jobs, slots, [], false), 0);
    ListFromShows(jobs, slots, Listing(jobs, slots, [], false), 0);
  }

  /** A job of one process with pid = pgid, completed or still running. */
  function Solo(pgid: int, done: bool): (j: Job)
    ensures j.pgid == pgid && |j.procs| == 1 && j.procs[0].completed == done && !j.procs[0].stopped
  {
    InitJob().(pgid := pgid, procs := [InitProcess().(pid := pgid, completed := done)])
  }

  /** Three jobs in slots 0 to 2, the middle one completed.  list_jobs prints the first
      as running and the second as completed, then remove_and_free unlinks the third
      instead of the second, so find_job for slot 2 returns NULL and the shell
      dereferences it. */
  lemma ListJobsLosesSuccessor()
    ensures
      var jobs := [Solo(10, false), Solo(11, true), Solo(12, false)];
      var r := ListJobsSpec(jobs, [10, 11, 12] + seq(17, _ => 0));
      r.crashed && r.jobs == [Solo(10, false), Solo(11, true)] &&
      r.listed == [Listed(0, "Running", [], false), Listed(1, "Completed", [], true)]
  {
    var jobs := [Solo(10, false), Solo(11, true), Solo(12, false)];
    var slots := [10, 11, 12] + seq(17, _ => 0);
    var l0 := Listing(jobs, slots, [], false);
    var l1 := Listing(jobs, slots, [Listed(0, "Running", [], false)], false);
    ListPrintsFirst(l0, l1);
    var jobs2 := [Solo(10, false), Solo(11, true)];
    var l2 := Listing(jobs2, slots[1 := 0], [Listed(0, "Running", [], false), Listed(1, "Completed", [], true)], false);
    ListFreesMiddle(l1, jobs2, l2);
    ListCrashesLast(l2);
    ListFromStep(l0, 0, l1);
    ListFromStep(l1, 1, l2);
    ListFromStep(l2, 2, l2.(crashed := true));
  }

  /** ListFrom after one pass that does not crash goes on from the next slot. */
  lemma ListFromStep(l: Listing, i: nat, r: Listing)
    requires |l.slots| == JobSlots && i < JobSlots && !l.crashed && ListSlot(l, i) == r
    ensures ListFrom(l, i) == ListFrom(r, i + 1)
  {
  }

  /** The first pass of ListJobsLosesSuccessor: slot 0 prints the running first job. */
  lemma ListPrintsFirst(l0: Listing, l1: Listing)
    requires l0 == Listing([Solo(10, false), Solo(11, true), Solo(12, false)], [10, 11, 12] + seq(17, _ => 0), [], false)
    requires l1 == l0.(listed := [Listed(0, "Running", [], false)])
    ensures ListSlot(l0, 0) == l1
  {
    assert FirstWithPgid(l0.jobs, 10) == Some(0);
  }

  /** The third pass of ListJobsLosesSuccessor: no job is left with the pgid of slot 2. */
  lemma ListCrashesLast(l2: Listing)
    requires l2 == Listing([Solo(10, false), Solo(11, true)], ([10, 11, 12] + seq(17, _ => 0))[1 := 0],
      [Listed(0, "Running", [], false), Listed(1, "Completed", [], true)], false)
    ensures ListSlot(l2, 2) == l2.(crashed := true) && ListFrom(l2.(crashed := true), 3) == l2.(crashed := true)
  {
    assert FirstWithPgid(l2.jobs, 12) == None;
  }

  /** The second pass of ListJobsLosesSuccessor: slot 1 prints the completed middle job,
      and unlinks the job after it. */
  lemma ListFreesMiddle(l1: Listing, jobs2: seq<Job>, l2: Listing)
    requires l1 == Listing([Solo(10, false), Solo(11, true), Solo(12, false)], [10, 11, 12] + seq(17, _ => 0),
      [Listed(0, "Running", [], false)], false)
    requires jobs2 == [Solo(10, false), Solo(11, true)]
    requires l2 == Listing(jobs2, l1.slots[1 := 0], l1.listed + [Listed(1, "Completed", [], true)], false)
    ensures ListSlot(l1, 1) == l2
  {
    assert FirstWithPgid(l1.jobs, 11) == Some(1);
    assert Unlinked(l1.jobs, 1) == jobs2;
  }

  /** The shell's global state: first_job as the list of jobs, and job_array. */
  class Shell {
    var jobs: seq<Job>
    var jobArray: array<int>

    predicate Valid()
      reads this
    {
      jobArray.Length == JobSlots
    }

    /** An empty job list and job_array with every slot free.  (main leaves the
        malloc'd slots uninitialised; here they start at 0.) */
    constructor ()
      ensures Valid() && jobs == [] && fresh(jobArray)
      ensures forall s :: 0 <= s < JobSlots ==> jobArray[s] == 0
    {
      jobs := [];
      jobArray := new int[JobSlots](_ => 0);
    }

    /** find_lowest_index: the first free slot of job_array, or -1 when all are taken. */
    method FindLowestIndex() returns (r: int)
      requires Valid()
      ensures -1 <= r < JobSlots
      ensures r == -1 <==> forall s :: 0 <= s < JobSlots ==> jobArray[s] != 0
      ensures r >= 0 ==> jobArray[r] == 0 && forall s :: 0 <= s < r ==> jobArray[s] != 0
    {
      var i := 0;
      while i < JobSlots
        invariant 0 <= i <= JobSlots
        invariant forall s :: 0 <= s < i ==> jobArray[s] != 0
      {
        if jobArray[i] == 0 {
          return i;
        }
        i := i + 1;
      }
      return -1;
    }

    /** find_prev_job for the job at position k: the node whose next is that job, or
        NULL for the head.  It reads first_job->next, so the list must not be empty. */
    method FindPrevJob(k: nat) returns (r: Option<nat>)
      requires jobs != []
      ensures r.Some? <==> 1 <= k < |jobs|
      ensures r.Some? ==> r.value + 1 == k
    {
      var t := 0;
      while t + 1 < |jobs|
        invariant 0 <= t < |jobs|
        invariant k == 0 || k > t
      {
        if t + 1 == k {
          return Some(t);
        }
        t := t + 1;
      }
      return None;
    }

    /** remove_and_free for the job at position k. */
    method RemoveAndFree(k: nat)
      requires k < |jobs|
      modifies this
      ensures jobs == Unlinked(old(jobs), k) && jobArray == old(jobArray)
    {
      var prev := FindPrevJob(k);
      if prev.None? {
        if |jobs| > 1 {
          jobs := jobs[1..];
        }
        return;
      }
      if k + 1 < |jobs| {
        jobs := jobs[..k + 1] + jobs[k + 2..];
      }
    }

    /** mark_process_status: the nested walk over jobs and their pipelines. */
    method MarkProcessStatus(pid: int, st: WaitStatus) returns (r: int)
      modifies this
      ensures Marked(r, jobs) == Mark(old(jobs), pid, st) && jobArray == old(jobArray)
    {
      if pid <= 0 {
        return -1;
      }
      var n := 0;
      while n < |jobs|
        invariant 0 <= n <= |jobs|
        invariant forall m, i :: 0 <= m < n && 0 <= i < |jobs[m].procs| ==> jobs[m].procs[i].pid != pid
      {
        var i := 0;
        while i < |jobs[n].procs|
          invariant 0 <= i <= |jobs[n].procs|
          invariant forall h :: 0 <= h < i ==> jobs[n].procs[h].pid != pid
        {
          if jobs[n].procs[i].pid == pid {
            FirstMatchIs(jobs, pid, n, i);
            jobs := jobs[n := SetProc(jobs[n], i, Reaped(jobs[n].procs[i], st))];
            return 0;
          }
          i := i + 1;
        }
        n := n + 1;
      }
      return -1;
    }

    /** wait_for_job for the job at position k, taking reaps in order. */
    method WaitForJob(k: nat, reaps: seq<Reap>) returns (used: nat)
      requires k < |jobs|
      modifies this
      ensures Waited(used, jobs) == WaitFrom(old(jobs), k, reaps) && jobArray == old(jobArray)
    {
      used := 0;
      while true
        invariant used <= |reaps| && k < |jobs| && jobArray == old(jobArray)
        invariant Then(used, WaitFrom(jobs, k, reaps[used..])) == WaitFrom(old(jobs), k, reaps)
        decreases |reaps| - used
      {
        if used == |reaps| {
          var code := MarkProcessStatus(-1, Exited);
          return;
        }
        var reap := reaps[used];
        assert reaps[used..][1..] == reaps[used + 1..];
        var code := MarkProcessStatus(reap.pid, reap.status);
        used := used + 1;
        if code != 0 {
          return;
        }
        var stopped := JobIsStopped(jobs[k]);
        if stopped {
          return;
        }
        var completed := JobIsCompleted(jobs[k]);
        if completed {
          return;
        }
      }
    }

    /** list_jobs: print each occupied slot's job, and free a job whose first process
        has completed and clear its slot.  The arguments of the C function are unused. */
    method ListJobs() returns (listed: seq<Listed>, crashed: bool)
      requires Valid()
      modifies this, jobArray
      ensures jobArray == old(jobArray) && Valid()
      ensures Listing(jobs, jobArray[..], listed, crashed) == ListJobsSpec(old(jobs), old(jobArray[..]))
    {
      listed := [];
      crashed := false;
      var i := 0;
      while i < JobSlots
        invariant 0 <= i <= JobSlots && jobArray == old(jobArray) && Valid()
        invariant ListFrom(Listing(jobs, jobArray[..], listed, false), i) == ListJobsSpec(old(jobs), old(jobArray[..]))
      {
        ghost var l := Listing(jobs, jobArray[..], listed, false);
        assert ListFrom(l, i) == ListFrom(ListSlot(l, i), i + 1);
        listed, crashed := ListOneSlot(i, listed);
        if crashed {
          return;
        }
        i := i + 1;
      }
    }

    /** One pass of the list_jobs loop, over slot i. */
    method ListOneSlot(i: nat, listed0: seq<Listed>) returns (listed: seq<Listed>, crashed: bool)
      requires Valid() && i < JobSlots
      modifies this, jobArray
      ensures jobArray == old(jobArray) && Valid()
      ensures Listing(jobs, jobArray[..], listed, crashed) == ListSlot(Listing(old(jobs), old(jobArray[..]), listed0, false), i)
    {
      listed := listed0;
      crashed := false;
      if jobArray[i] != 0 {
        var k := FindJob(jobs, jobArray[i]);
        if k.None? || jobs[k.value].procs == [] {
          return listed, true;
        }
        var temp := k.value;
        var p := jobs[temp].procs[0];
        listed := listed + [Listed(i, StatusLabel(p), jobs[temp].commandinfo, p.completed)];
        if p.completed {
          var slots := jobArray[..];
          RemoveAndFree(temp);
          jobArray[i] := 0;
          assert jobArray[..] == slots[i := 0];
        }
      }
    }

    /** readcmdline on one line: link one job per command of the line, and return
        false exactly when the parse ends at a blank rest of the line (which can follow
        a job already linked before a `;`). */
    method ReadCmdLine(line: string, eof: bool) returns (r: bool)
      modifies this
      ensures jobs == old(jobs) + ParseLine(line, eof).added
      ensures r == Returned(ParseLine(line, eof))
      ensures jobArray == old(jobArray)
    {
      var pos: nat := 0;
      var seqPos: nat := 0;
      ghost var added: seq<Job> := [];
      while true
        invariant seqPos <= pos <= |line|
        invariant jobs == old(jobs) + added && jobArray == old(jobArray)
        invariant ParseFrom(line, eof, pos, seqPos, added) == ParseLine(line, eof)
        decreases |line| - pos
      {
        var step := ReadCommand(line, eof, pos, seqPos, added);
        if step.job.Some? {
          jobs := jobs + [step.job.value];
          added := added + [step.job.value];
        }
        if step.Finished? {
          return step.returned;
        }
        pos, seqPos := step.next, step.next;
      }
    }
  }

  /** One pass of the outer loop of readcmdline from cmdline_pos = pos: skip the spaces,
      stop at a blank rest of line, otherwise scan one command and close it. */
  method ReadCommand(line: string, eof: bool, pos: nat, seqPos: nat, ghost added: seq<Job>) returns (step: Pass)
    requires seqPos <= pos <= |line|
    ensures step.Continue? ==> step.job.Some? && pos < step.next <= |line|
    ensures step.Continue? ==>
      ParseFrom(line, eof, pos, seqPos, added) == ParseFrom(line, eof, step.next, step.next, added + [step.job.value])
    ensures step.Finished? && step.job.None? ==>
      ParseFrom(line, eof, pos, seqPos, added) == ParseResult(Blank, added) && !step.returned
    ensures step.Finished? && step.job.Some? ==>
      (ParseFrom(line, eof, pos, seqPos, added).added == added + [step.job.value] &&
       step.returned && !ParseFrom(line, eof, pos, seqPos, added).outcome.Blank?)
  {
    var start := SkipSpacesFrom(line, pos);
    if At(line, start) == '\n' || At(line, start) == Nul || eof {
      ParseBlank(line, eof, pos, seqPos, added);
      return Finished(None, false);
    }
    var scan := ScanCommand(line, start);
    if scan.Failed? {
      ParseRejected(line, eof, pos, seqPos, added, scan);
      return Finished(Some(scan.job), true);
    }
    var job, closed := CloseCommand(line, seqPos, scan);
    if !closed {
      ParseOverflow(line, eof, pos, seqPos, added, scan, job);
      return Finished(Some(job), true);
    }
    if scan.ender != Sequence {
      ParseDone(line, eof, pos, seqPos, added, scan, job);
      return Finished(Some(job), true);
    }
    var next := scan.last.pos + 1;
    ParseNext(line, eof, pos, seqPos, added, scan, job, next);
    return Continue(Some(job), next);
  }

  /** The end of one command in readcmdline: at a `;` the text so far is copied into
      commandinfo; the collected words become the last process of the pipeline; and
      for any other ender the text is copied after that.  `closed` is false when the
      words do not fit argv. */
  method CloseCommand(line: string, seqPos: nat, scan: ScanResult) returns (job: Job, closed: bool)
    requires scan.Ended? && seqPos <= scan.last.pos && Nul !in scan.last.cmd
    ensures closed <==> |Words(scan.last.cmd)| < MaxArgs
    ensures !closed ==> job == if scan.ender == Sequence
      then scan.last.job.(commandinfo := CommandText(line, seqPos, scan.last.pos)) else scan.last.job
    ensures closed && scan.ender != Sequence ==>
      job == CloseProcess(scan.last.job, scan.last.cmd).value.(commandinfo := CommandText(line, seqPos, scan.last.pos))
    ensures closed && scan.ender == Sequence ==>
      job == CloseProcess(scan.last.job.(commandinfo := CommandText(line, seqPos, scan.last.pos)), scan.last.cmd).value
  {
    var last := scan.last;
    job := last.job;
    if scan.ender == Sequence {
      job := job.(commandinfo := CommandText(line, seqPos, last.pos));
    }
    if |Words(last.cmd)| >= MaxArgs {
      return job, false;
    }
    var p := ReadProcessInfo(InitProcess(), last.cmd);
    assert p == FilledProcess(last.cmd);
    job := job.(procs := job.procs + [p]);
    if scan.ender != Sequence {
      job := job.(commandinfo := CommandText(line, seqPos, last.pos));
    }
    closed := true;
  }

  /** The scan of the command that starts after the spaces at pos. */
  predicate ScansTo(line: string, eof: bool, pos: nat, scan: ScanResult)
    requires pos <= |line|
  {
    var start := SkipSpaces(line, pos);
    At(line, start) != '\n' && At(line, start) != Nul && !eof &&
    ScanJob(line, Scan(start, [], InitJob(), true)) == scan
  }

  /** Only blanks before the newline, or end of file: nothing more is linked. */
  lemma ParseBlank(line: string, eof: bool, pos: nat, seqPos: nat, added: seq<Job>)
    requires seqPos <= pos <= |line|
    requires var start := SkipSpaces(line, pos); At(line, start) == '\n' || At(line, start) == Nul || eof
    ensures ParseFrom(line, eof, pos, seqPos, added) == ParseResult(Blank, added)
  {
  }

  /** A command the scan gives up on ends the line, its partial job linked. */
  lemma ParseRejected(line: string, eof: bool, pos: nat, seqPos: nat, added: seq<Job>, scan: ScanResult)
    requires seqPos <= pos <= |line| && ScansTo(line, eof, pos, scan) && scan.Failed?
    ensures ParseFrom(line, eof, pos, seqPos, added) == ParseResult(Rejected(scan.error), added + [scan.job])
  {
  }

  /** A command with too many words for argv ends the line, its job linked unclosed. */
  lemma ParseOverflow(line: string, eof: bool, pos: nat, seqPos: nat, added: seq<Job>, scan: ScanResult, job: Job)
    requires seqPos <= pos <= |line| && ScansTo(line, eof, pos, scan) && scan.Ended?
    requires seqPos <= scan.last.pos && |Words(scan.last.cmd)| >= MaxArgs
    requires job == if scan.ender == Sequence then scan.last.job.(commandinfo := CommandText(line, seqPos, scan.last.pos)) else scan.last.job
    ensures ParseFrom(line, eof, pos, seqPos, added) == ParseResult(Rejected(ArgvOverflow), added + [job])
  {
  }

  /** A command ended by a newline, `&` or `#` is closed and ends the line. */
  lemma ParseDone(line: string, eof: bool, pos: nat, seqPos: nat, added: seq<Job>, scan: ScanResult, job: Job)
    requires seqPos <= pos <= |line| && ScansTo(line, eof, pos, scan) && scan.Ended? && scan.ender != Sequence
    requires seqPos <= scan.last.pos && |Words(scan.last.cmd)| < MaxArgs
    requires job == CloseProcess(scan.last.job, scan.last.cmd).value.(commandinfo := CommandText(line, seqPos, scan.last.pos))
    ensures ParseFrom(line, eof, pos, seqPos, added) == ParseResult(Parsed, added + [job])
  {
  }

  /** A command ended by `;` is closed and the line goes on after the `;`. */
  lemma ParseNext(line: string, eof: bool, pos: nat, seqPos: nat, added: seq<Job>, scan: ScanResult, job: Job, next: nat)
    requires seqPos <= pos <= |line| && ScansTo(line, eof, pos, scan) && scan.Ended? && scan.ender == Sequence
    requires seqPos <= scan.last.pos && |Words(scan.last.cmd)| < MaxArgs
    requires job == CloseProcess(scan.last.job.(commandinfo := CommandText(line, seqPos, scan.last.pos)), scan.last.cmd).value
    requires next == scan.last.pos + 1
    ensures pos < next <= |line|
    ensures ParseFrom(line, eof, pos, seqPos, added) == ParseFrom(line, eof, next, next, added + [job])
  {
  }

  /** The reaps taken before a later stretch of the wait, added to it. */
  function Then(used: nat, w: Waited): Waited {
    Waited(used + w.used, w.jobs)
  }

  /** A process that matches the pid and has no match before it in the walk order is
      the one FirstWithPid finds. */
  lemma FirstMatchIs(jobs: seq<Job>, pid: int, n: nat, i: nat)
    requires n < |jobs| && i < |jobs[n].procs| && jobs[n].procs[i].pid == pid
    requires forall m, h :: 0 <= m < n && 0 <= h < |jobs[m].procs| ==> jobs[m].procs[h].pid != pid
    requires forall h :: 0 <= h < i ==> jobs[n].procs[h].pid != pid
    ensures FirstWithPid(jobs, pid) == Some(Found(n, i))
  {
    var f := FirstWithPid(jobs, pid);
    assert f.Some?;
    assert f.value.job == n;
  }
}
