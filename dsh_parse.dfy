/** The command-line parser of the older shell, dsh.c.  Its scanner is the one of
    dsh-tmp.c with two cases changed: there is no `#` case, so `#` is an ordinary
    command character, and a process is closed by a readprocessinfo that has room for
    one argument and writes no NULL after it.  Its outer loop differs more: it never
    skips leading whitespace or stops at a blank line, and it copies commandinfo with
    the length cmdline_pos, from seq_pos. */
module DshParser {

  import opened JobModel
  import opened Lexer
  import TmpParser

  /** init_process of dsh.c: argv is malloc'd with room for a single pointer, and
      nothing is stored in it. */
  function InitProcess(): (p: Process)
    ensures p.pid == -1 && !p.completed && !p.stopped && p.status == None && p.argv == []
    ensures p.argvSlots == 1 && !p.argvTerminated
  {
    Process(-1, [], 1, false, false, false, None)
  }

  /** readprocessinfo of dsh.c: split cmd at whitespace into argv[0 .. argc).  Each word
      is written to its own slot of argv and no NULL follows the last, so every word
      needs a slot. */
  method ReadProcessInfo(p: Process, cmd: string) returns (q: Process)
    requires Nul !in cmd
    requires |Words(cmd)| <= p.argvSlots
    ensures q == if Words(cmd) == [] then p else p.(argv := Words(cmd))
    ensures q.argvTerminated == p.argvTerminated
    ensures Words(cmd) != [] ==> Join(q.argv) == Collapse(cmd)
  {
    var pos := SkipSpacesFrom(cmd, 0);
    WordsSkipSpaces(cmd, pos);
    if At(cmd, pos) == Nul {
      return p;
    }
    var argv: seq<string> := [];
    while At(cmd, pos) != Nul
      invariant pos <= |cmd|
      invariant argv + Words(cmd[pos..]) == Words(cmd)
      invariant !IsSpace(At(cmd, pos))
      decreases |cmd| - pos
    {
      var start := pos;
      var word;
      word, pos := TmpParser.ReadWord(cmd, start);
      var wordEnd := pos;
      pos := SkipSpacesFrom(cmd, pos);
      TmpParser.NextWord(cmd, start, wordEnd, pos);
      AppendAssoc(argv, [word], Words(cmd[pos..]));
      argv := argv + [word];
    }
    q := p.(argv := argv);
    assert cmd[pos..] == [];
    JoinWordsIsCollapse(cmd);
  }

  /** The process linked at the end of the pipeline for the collected text. */
  function FilledProcess(cmd: string): Process {
    InitProcess().(argv := Words(cmd))
  }

  /** Closing one process of the pipeline.  None when readprocessinfo would write a
      second word past the one argv slot. */
  function CloseProcess(j: Job, cmd: string): Option<Job> {
    if |Words(cmd)| <= 1 then Some(j.(procs := j.procs + [FilledProcess(cmd)])) else None
  }

  /** One pass of the scan loop of dsh.c at s.pos.  A `#` falls to the default case,
      `|` closes a dsh.c process, and every other character is handled as in dsh-tmp.c. */
  function Step(line: string, s: Scan): (r: StepResult)
    requires s.pos <= |line|
    ensures r.Next? ==> s.pos < r.next.pos <= |line|
    ensures r.Stop? && r.result.Ended? ==>
      r.result.last.pos == s.pos && EndsAt(line, s.pos, r.result.ender) && r.result.ender != Comment
  {
    var c := At(line, s.pos);
    if c == '#' then
      if !s.valid then Stop(Failed(CannotFathom, s.job))
      else if |s.cmd| == MaxLenCmdline - 1 then Stop(Failed(CmdTooLong, s.job))
      else Next(s.(pos := s.pos + 1, cmd := s.cmd + [c]))
    else if c == '|' then
      match CloseProcess(s.job, s.cmd)
      case None => Stop(Failed(ArgvOverflow, s.job))
      case Some(job) => Next(Scan(s.pos + 1, [], job, true))
    else TmpParser.Step(line, s)
  }

  /** The scan loop of one job, run until a case stops it. */
  function ScanJob(line: string, s: Scan): (r: ScanResult)
    requires s.pos <= |line|
    ensures r.Ended? ==> s.pos <= r.last.pos <= |line| && EndsAt(line, r.last.pos, r.ender) && r.ender != Comment
    decreases |line| - s.pos
  {
    match Step(line, s)
    case Next(next) => ScanJob(line, next)
    case Stop(r) => r
  }

  /** The `|` case of dsh.c. */
  method PipeCase(line: string, s: Scan) returns (r: StepResult)
    requires s.pos < |line| && line[s.pos] == '|' && Nul !in s.cmd
    ensures r == Step(line, s)
  {
    if |Words(s.cmd)| > 1 {
      return Stop(Failed(ArgvOverflow, s.job));
    }
    var p := ReadProcessInfo(InitProcess(), s.cmd);
    assert p == FilledProcess(s.cmd);
    return Next(Scan(s.pos + 1, [], s.job.(procs := s.job.procs + [p]), true));
  }

  /** The scan loop of readcmdline in dsh.c for one job started at `start`. */
  method ScanCommand(line: string, start: nat) returns (r: ScanResult)
    requires start <= |line|
    ensures r == ScanJob(line, Scan(start, [], InitJob(), true))
    ensures r.Ended? ==> Nul !in r.last.cmd
  {
    var s := Scan(start, [], InitJob(), true);
    while At(line, s.pos) != '\n' && At(line, s.pos) != Nul
      invariant s.pos <= |line| && Nul !in s.cmd
      invariant ScanJob(line, s) == ScanJob(line, Scan(start, [], InitJob(), true))
      decreases |line| - s.pos
    {
      var c := line[s.pos];
      var step;
      if c == '<' || c == '>' {
        step := TmpParser.RedirectCase(line, s);
      } else if c == '|' {
        step := PipeCase(line, s);
      } else if c == '&' {
        step := Stop(Ended(s.(job := s.job.(bg := true)), Background));
      } else if c == ';' {
        step := Stop(Ended(s, Sequence));
      } else if !s.valid {
        step := Stop(Failed(CannotFathom, s.job));
      } else if |s.cmd| == MaxLenCmdline - 1 {
        step := Stop(Failed(CmdTooLong, s.job));
      } else {
        step := Next(s.(pos := s.pos + 1, cmd := s.cmd + [c]));
      }
      match step
      case Stop(result) => return result;
      case Next(next) => s := next;
    }
    return Ended(s, EndOfLine);
  }

  /** What strncpy(commandinfo, cmdline + seq_pos, cmdline_pos) leaves in the job: up to
      cmdline_pos characters from seq_pos, not the cmdline_pos - seq_pos that lie
      between them. */
  function CommandText(line: string, seqPos: nat, pos: nat): string {
    CopyN(line, seqPos, pos)
  }

  /** The outer loop of readcmdline in dsh.c from cmdline_pos = pos.  Every pass links a
      job.  At a `;` the text is copied and seq_pos moved past the `;` before the
      process is closed; after closing, the text is copied again from the new seq_pos,
      whatever the ender. */
  function ParseFrom(line: string, pos: nat, seqPos: nat, added: seq<Job>): (r: ParseResult)
    requires seqPos <= pos <= |line|
    ensures |added| < |r.added| && r.added[..|added|] == added
    ensures r.outcome != Blank
    decreases |line| - pos
  {
    match ScanJob(line, Scan(pos, [], InitJob(), true))
    case Failed(e, job) => ParseResult(Rejected(e), added + [job])
    case Ended(last, ender) =>
      var job := if ender == Sequence then last.job.(commandinfo := CommandText(line, seqPos, last.pos)) else last.job;
      var from := if ender == Sequence then last.pos + 1 else seqPos;
      match CloseProcess(job, last.cmd)
      case None => ParseResult(Rejected(ArgvOverflow), added + [job])
      case Some(closed) =>
        var done := closed.(commandinfo := CommandText(line, from, last.pos));
        if ender == Sequence then ParseFrom(line, last.pos + 1, from, added + [done])
        else ParseResult(Parsed, added + [done])
  }

  /** readcmdline of dsh.c on one line read by fgets. */
  function ParseLine(line: string): ParseResult {
    ParseFrom(line, 0, 0, [])
  }

  /** The end of one command in dsh.c: at a `;` the text is copied and the copy start
      moves past it; the collected words become the last process of the pipeline; then
      the text is copied again.  `closed` is false when the words do not fit argv. */
  method CloseCommand(line: string, seqPos: nat, scan: ScanResult) returns (job: Job, closed: bool, from: nat)
    requires scan.Ended? && Nul !in scan.last.cmd
    ensures from == if scan.ender == Sequence then scan.last.pos + 1 else seqPos
    ensures closed <==> |Words(scan.last.cmd)| <= 1
    ensures !closed ==> job == if scan.ender == Sequence
      then scan.last.job.(commandinfo := CommandText(line, seqPos, scan.last.pos)) else scan.last.job
    ensures closed ==>
      (job == CloseProcess(if scan.ender == Sequence
        then scan.last.job.(commandinfo := CommandText(line, seqPos, scan.last.pos)) else scan.last.job,
        scan.last.cmd).value.(commandinfo := CommandText(line, from, scan.last.pos)))
  {
    var last := scan.last;
    job := last.job;
    from := seqPos;
    if scan.ender == Sequence {
      job := job.(commandinfo := CommandText(line, seqPos, last.pos));
      from := last.pos + 1;
    }
    if |Words(last.cmd)| > 1 {
      return job, false, from;
    }
    var p := ReadProcessInfo(InitProcess(), last.cmd);
    assert p == FilledProcess(last.cmd);
    job := job.(procs := job.procs + [p]);
    job := job.(commandinfo := CommandText(line, from, last.pos));
    closed := true;
  }
}
