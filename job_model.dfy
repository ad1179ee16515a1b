/** The job and process records of the shell and the read-only walks over them.
    Both shells (dsh-tmp.c and the older dsh.c) share these records, which their
    header dsh.h declares; that header is not part of this model, so the fields are
    the ones the two C files read and write.  A job list is the singly-linked list
    that starts at `first_job`; here it is a `seq<Job>` in list order, and a pointer
    to a node of it is the node's position.  A job's pipeline is likewise a
    `seq<Process>`. */
module JobModel {

  type Pos = x: int | x > 0 witness 1

  /** Sizes and descriptor numbers that dsh.h defines.  Their values are not known
      here, only that they are positive. */
  const MaxLenCmdline: Pos
  const MaxLenFilename: Pos
  const MaxArgs: Pos
  const InputFd: Pos
  const OutputFd: Pos

  const StdinFileno: int := 0
  const StdoutFileno: int := 1
  const StderrFileno: int := 2

  datatype Option<+T> = None | Some(value: T)

  /** What one reap by waitpid reports about a child, in place of the raw status word
      and the WIFSTOPPED / WIFSIGNALED / WTERMSIG macros. */
  datatype WaitStatus = Stopped | Exited | Signaled(signal: int)

  /** process_t.  `argv` holds argv[0 .. argc), so argc is |argv|; `argvSlots` is the
      number of pointer slots allocated for argv and `argvTerminated` says whether the
      slot after the last argument is known to hold NULL.  `status` is None while it
      still holds the -1 that init_process stores. */
  datatype Process = Process(
    pid: int,
    argv: seq<string>,
    argvSlots: nat,
    argvTerminated: bool,
    completed: bool,
    stopped: bool,
    status: Option<WaitStatus>)

  /** job_t.  `ifile`/`ofile` are None while the pointers are NULL.  `commandinfo` is the
      text copied into the job's command buffer (see the parsers for how much). */
  datatype Job = Job(
    pgid: int,
    procs: seq<Process>,
    commandinfo: string,
    ifile: Option<string>,
    ofile: Option<string>,
    stdin: int,
    stdout: int,
    stderr: int,
    bg: bool,
    notified: bool)

  /** job_is_completed: every process of the pipeline has completed. */
  predicate JobCompleted(j: Job) {
    forall i :: 0 <= i < |j.procs| ==> j.procs[i].completed
  }

  /** job_is_stopped: every process of the pipeline has completed or stopped. */
  predicate JobStopped(j: Job) {
    forall i :: 0 <= i < |j.procs| ==> j.procs[i].completed || j.procs[i].stopped
  }

  /** A job that has completed counts as stopped. */
  lemma CompletedImpliesStopped(j: Job)
    ensures JobCompleted(j) ==> JobStopped(j)
  {
  }

  /** A job with an empty pipeline is both stopped and completed. */
  lemma EmptyPipelineIsStoppedAndCompleted(j: Job)
    requires j.procs == []
    ensures JobCompleted(j) && JobStopped(j)
  {
  }

  /** init_job: a job not yet spawned, with no processes and the standard descriptors.
      (The command buffer it allocates is left uninitialised in C; here it is empty.) */
  function InitJob(): (j: Job)
    ensures j.pgid == -1 && j.procs == [] && !j.bg && !j.notified
    ensures j.stdin == StdinFileno && j.stdout == StdoutFileno && j.stderr == StderrFileno
    ensures j.ifile == None && j.ofile == None
    ensures JobCompleted(j) && JobStopped(j)
  {
    Job(-1, [], [], None, None, StdinFileno, StdoutFileno, StderrFileno, false, false)
  }

  /** job_is_stopped, walking the pipeline. */
  method JobIsStopped(j: Job) returns (r: bool)
    ensures r == JobStopped(j)
  {
    var i := 0;
    while i < |j.procs|
      invariant 0 <= i <= |j.procs|
      invariant forall k :: 0 <= k < i ==> j.procs[k].completed || j.procs[k].stopped
    {
      if !j.procs[i].completed && !j.procs[i].stopped {
        return false;
      }
      i := i + 1;
    }
    return true;
  }

  /** job_is_completed, walking the pipeline. */
  method JobIsCompleted(j: Job) returns (r: bool)
    ensures r == JobCompleted(j)
  {
    var i := 0;
    while i < |j.procs|
      invariant 0 <= i <= |j.procs|
      invariant forall k :: 0 <= k < i ==> j.procs[k].completed
    {
      if !j.procs[i].completed {
        return false;
      }
      i := i + 1;
    }
    return true;
  }

  /** The position of the first job in `jobs` whose pgid is `pgid`. */
  function FirstWithPgid(jobs: seq<Job>, pgid: int): (r: Option<nat>)
    ensures r.Some? ==> r.value < |jobs| && jobs[r.value].pgid == pgid
    ensures r.Some? ==> forall k :: 0 <= k < r.value ==> jobs[k].pgid != pgid
    ensures r.None? <==> forall k :: 0 <= k < |jobs| ==> jobs[k].pgid != pgid
  {
    if jobs == [] then None
    else if jobs[0].pgid == pgid then Some(0)
    else match FirstWithPgid(jobs[1..], pgid)
      case None => None
      case Some(k) => Some(k + 1)
  }

  /** find_job over the list that starts at first_job: the first job with the given
      pgid, or NULL (None) when there is none. */
  method FindJob(jobs: seq<Job>, pgid: int) returns (r: Option<nat>)
    ensures r.Some? ==> r.value < |jobs| && jobs[r.value].pgid == pgid
    ensures r.Some? ==> forall k :: 0 <= k < r.value ==> jobs[k].pgid != pgid
    ensures r.None? <==> forall k :: 0 <= k < |jobs| ==> jobs[k].pgid != pgid
    ensures r == FirstWithPgid(jobs, pgid)
  {
    var i := 0;
    while i < |jobs|
      invariant 0 <= i <= |jobs|
      invariant forall k :: 0 <= k < i ==> jobs[k].pgid != pgid
    {
      if jobs[i].pgid == pgid {
        return Some(i);
      }
      i := i + 1;
    }
    return None;
  }

  /** find_last_job: NULL (None) for an empty list, otherwise the node whose `next` is
      NULL, which is the last position. */
  method FindLastJob(jobs: seq<Job>) returns (r: Option<nat>)
    ensures r.None? <==> jobs == []
    ensures r.Some? ==> r.value == |jobs| - 1
  {
    if jobs == [] {
      return None;
    }
    var i := 0;
    while i + 1 < |jobs|
      invariant 0 <= i < |jobs|
    {
      i := i + 1;
    }
    return Some(i);
  }

  /** find_last_process: NULL (None) for an empty pipeline, otherwise the last process. */
  method FindLastProcess(j: Job) returns (r: Option<nat>)
    ensures r.None? <==> j.procs == []
    ensures r.Some? ==> r.value == |j.procs| - 1
  {
    if j.procs == [] {
      return None;
    }
    var i := 0;
    while i + 1 < |j.procs|
      invariant 0 <= i < |j.procs|
    {
      i := i + 1;
    }
    return Some(i);
  }
}
