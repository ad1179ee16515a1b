/** The older shell, dsh.c: its job list and the readcmdline that appends to it.  The
    lookups and predicates it shares with dsh-tmp.c are those of JobModel. */
module Dsh {

  import opened JobModel
  import opened Lexer
  import opened DshParser

  /** The state of dsh.c: first_job as the list of jobs. */
  class Shell {
    var jobs: seq<Job>

    constructor ()
      ensures jobs == []
    {
      jobs := [];
    }

    /** readcmdline of dsh.c on one line: link one job per pass until a pass ends the
        line.  It returns nothing, and even a blank line links a job. */
    method ReadCmdLine(line: string)
      modifies this
      ensures jobs == old(jobs) + ParseLine(line).added
    {
      var pos: nat := 0;
      var seqPos: nat := 0;
      ghost var added: seq<Job> := [];
      while true
        invariant seqPos <= pos <= |line|
        invariant jobs == old(jobs) + added
        invariant ParseFrom(line, pos, seqPos, added) == ParseLine(line)
        decreases |line| - pos
      {
        var job, next := ReadCommand(line, pos, seqPos, added);
        jobs := jobs + [job];
        added := added + [job];
        if next.None? {
          return;
        }
        pos, seqPos := next.value, next.value;
      }
    }
  }

  /** One pass of the outer loop of readcmdline in dsh.c from cmdline_pos = pos: scan one
      command and close it.  The pass links `job`; `next` is where the next pass starts,
      or None when this pass ends the line. */
  method ReadCommand(line: string, pos: nat, seqPos: nat, ghost added: seq<Job>) returns (job: Job, next: Option<nat>)
    requires seqPos <= pos <= |line|
    ensures next.Some? ==> pos < next.value <= |line|
    ensures next.Some? ==> ParseFrom(line, pos, seqPos, added) == ParseFrom(line, next.value, next.value, added + [job])
    ensures next.None? ==> ParseFrom(line, pos, seqPos, added).added == added + [job]
  {
    var scan := ScanCommand(line, pos);
    if scan.Failed? {
      ParseRejected(line, pos, seqPos, added, scan);
      return scan.job, None;
    }
    var closed, from;
    job, closed, from := CloseCommand(line, seqPos, scan);
    if !closed {
      ParseOverflow(line, pos, seqPos, added, scan, job);
      return job, None;
    }
    if scan.ender != Sequence {
      ParseDone(line, pos, seqPos, added, scan, job);
      return job, None;
    }
    ParseNext(line, pos, seqPos, added, scan, job);
    return job, Some(scan.last.pos + 1);
  }

  /** A command the scan gives up on ends the line, its partial job linked. */
  lemma ParseRejected(line: string, pos: nat, seqPos: nat, added: seq<Job>, scan: ScanResult)
    requires seqPos <= pos <= |line| && scan == ScanJob(line, Scan(pos, [], InitJob(), true)) && scan.Failed?
    ensures ParseFrom(line, pos, seqPos, added) == ParseResult(Rejected(scan.error), added + [scan.job])
  {
  }

  /** A command with more than one word ends the line, its job linked unclosed. */
  lemma ParseOverflow(line: string, pos: nat, seqPos: nat, added: seq<Job>, scan: ScanResult, job: Job)
    requires seqPos <= pos <= |line| && scan == ScanJob(line, Scan(pos, [], InitJob(), true)) && scan.Ended?
    requires |Words(scan.last.cmd)| > 1
    requires job == if scan.ender == Sequence then scan.last.job.(commandinfo := CommandText(line, seqPos, scan.last.pos)) else scan.last.job
    ensures ParseFrom(line, pos, seqPos, added) == ParseResult(Rejected(ArgvOverflow), added + [job])
  {
  }

  /** A command ended by a newline or `&` is closed and ends the line. */
  lemma ParseDone(line: string, pos: nat, seqPos: nat, added: seq<Job>, scan: ScanResult, job: Job)
    requires seqPos <= pos <= |line| && scan == ScanJob(line, Scan(pos, [], InitJob(), true))
    requires scan.Ended? && scan.ender != Sequence && |Words(scan.last.cmd)| <= 1
    requires job == CloseProcess(scan.last.job, scan.last.cmd).value.(commandinfo := CommandText(line, seqPos, scan.last.pos))
    ensures ParseFrom(line, pos, seqPos, added) == ParseResult(Parsed, added + [job])
  {
  }

  /** A command ended by `;` is closed and the line goes on after the `;`. */
  lemma ParseNext(line: string, pos: nat, seqPos: nat, added: seq<Job>, scan: ScanResult, job: Job)
    requires seqPos <= pos <= |line| && scan == ScanJob(line, Scan(pos, [], InitJob(), true))
    requires scan.Ended? && scan.ender == Sequence && |Words(scan.last.cmd)| <= 1
    requires job == CloseProcess(scan.last.job.(commandinfo := CommandText(line, seqPos, scan.last.pos)), scan.last.cmd)
      .value.(commandinfo := CommandText(line, scan.last.pos + 1, scan.last.pos))
    ensures scan.last.pos < |line|
    ensures ParseFrom(line, pos, seqPos, added) == ParseFrom(line, scan.last.pos + 1, scan.last.pos + 1, added + [job])
  {
  }
}
