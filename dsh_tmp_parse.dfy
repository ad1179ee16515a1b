/** The command-line parser of dsh-tmp.c: init_process, readprocessinfo, and the
    scanner of readcmdline stated as functions over the line it reads.  The method
    that runs the scanner over the shell's job list is DshTmp.Shell.ReadCmdLine. */
module TmpParser {

  import opened JobModel
  import opened Lexer

  /** init_process: a process not yet forked.  Its argv comes from calloc with MaxArgs
      slots, so the slot after the last argument is NULL. */
  function InitProcess(): (p: Process)
    ensures p.pid == -1 && !p.completed && !p.stopped && p.status == None && p.argv == []
    ensures p.argvSlots == MaxArgs && p.argvTerminated
  {
    Process(-1, [], MaxArgs, true, false, false, None)
  }

  /** readprocessinfo: split cmd at whitespace into argv[0 .. argc) and write the NULL
      after them.  A command that is all whitespace leaves the process as it was.
      Nothing checks MaxArgs, so the caller must leave room for the NULL. */
  method ReadProcessInfo(p: Process, cmd: string) returns (q: Process)
    requires Nul !in cmd
    requires |Words(cmd)| < p.argvSlots
    ensures q == if Words(cmd) == [] then p else p.(argv := Words(cmd), argvTerminated := true)
    ensures Words(cmd) != [] ==> Join(q.argv) == Collapse(cmd)
  {
    var pos := SkipSpacesFrom(cmd, 0);
    WordsSkipSpaces(cmd, pos);
    if At(cmd, pos) == Nul {
      return p;
    }
    var argv: seq<string> := [];
    while At(cmd, pos) != Nul
      invariant pos <= |cmd|
      invariant argv + Words(cmd[pos..]) == Words(cmd)
      invariant !IsSpace(At(cmd, pos))
      decreases |cmd| - pos
    {
      var start := pos;
      var word;
      word, pos := ReadWord(cmd, start);
      var wordEnd := pos;
      pos := SkipSpacesFrom(cmd, pos);
      NextWord(cmd, start, wordEnd, pos);
      AppendAssoc(argv, [word], Words(cmd[pos..]));
      argv := argv + [word];
    }
    q := p.(argv := argv, argvTerminated := true);
    assert cmd[pos..] == [];
    JoinWordsIsCollapse(cmd);
  }

  /** The inner loop of readprocessinfo: copy the word that starts at `start`. */
  method ReadWord(cmd: string, start: nat) returns (word: string, end: nat)
    requires start <= |cmd|
    ensures end == WordEnd(cmd, start) && word == cmd[start..end]
  {
    end := start;
    word := [];
    while At(cmd, end) != Nul && !IsSpace(At(cmd, end))
      invariant start <= end <= |cmd|
      invariant word == cmd[start..end]
      invariant WordEnd(cmd, end) == WordEnd(cmd, start)
      decreases |cmd| - end
    {
      word := word + [cmd[end]];
      end := end + 1;
    }
  }

  /** The first word of cmd[start..] is the run up to `wordEnd`, and the words after it
      start where the spaces after it end. */
  lemma NextWord(cmd: string, start: nat, wordEnd: nat, next: nat)
    requires Nul !in cmd
    requires start <= |cmd| && !IsSpace(At(cmd, start)) && At(cmd, start) != Nul
    requires wordEnd == WordEnd(cmd, start) && next == SkipSpaces(cmd, wordEnd)
    ensures start < wordEnd <= next <= |cmd|
    ensures Words(cmd[start..]) == [cmd[start..wordEnd]] + Words(cmd[next..])
  {
    FirstWord(cmd, start, wordEnd);
    SpacesBefore(cmd, wordEnd, next);
  }

  /** The first word of cmd[start..] ends at `wordEnd`. */
  lemma FirstWord(cmd: string, start: nat, wordEnd: nat)
    requires Nul !in cmd
    requires start <= |cmd| && !IsSpace(At(cmd, start)) && At(cmd, start) != Nul
    requires wordEnd == WordEnd(cmd, start)
    ensures Words(cmd[start..]) == [cmd[start..wordEnd]] + Words(cmd[wordEnd..])
  {
    var t := cmd[start..];
    var n := wordEnd - start;
    assert t[..n] == cmd[start..wordEnd];
    assert t[n..] == cmd[wordEnd..];
    assert RunLength(t) == n;
  }

  /** The spaces from `wordEnd` up to `next` do not change the words. */
  lemma SpacesBefore(cmd: string, wordEnd: nat, next: nat)
    requires wordEnd <= |cmd| && next == SkipSpaces(cmd, wordEnd)
    ensures Words(cmd[wordEnd..]) == Words(cmd[next..])
  {
    var u := cmd[wordEnd..];
    var d := next - wordEnd;
    assert u[..d] == cmd[wordEnd..next];
    WordsSkipSpaces(u, d);
    assert u[d..] == cmd[next..];
  }

  /** The process the `|` case and the code after the scan loop link at the end of
      the pipeline: a fresh process filled by readprocessinfo from the collected text. */
  function FilledProcess(cmd: string): Process {
    InitProcess().(argv := Words(cmd))
  }

  /** Closing one process of the pipeline.  None when readprocessinfo would write its
      NULL past the MaxArgs slots of argv. */
  function CloseProcess(j: Job, cmd: string): Option<Job> {
    if |Words(cmd)| < MaxArgs then Some(j.(procs := j.procs + [FilledProcess(cmd)])) else None
  }

  /** One pass of the scan loop of readcmdline at s.pos: the cases of its switch. */
  function Step(line: string, s: Scan): (r: StepResult)
    requires s.pos <= |line|
    ensures r.Next? ==> s.pos < r.next.pos <= |line|
    ensures r.Stop? && r.result.Ended? ==>
      r.result.last.pos == s.pos && EndsAt(line, s.pos, r.result.ender)
  {
    var c := At(line, s.pos);
    if c == '\n' || c == Nul then Stop(Ended(s, EndOfLine))
    else if c == '<' || c == '>' then
      var b := SkipSpaces(line, s.pos + 1);
      var e := WordEnd(line, b);
      if e - b > MaxLenFilename then
        var part := line[b..b + MaxLenFilename];
        Stop(Failed(FileNameTooLong,
          if c == '<' then s.job.(ifile := Some(part)) else s.job.(ofile := Some(part))))
      else
        var job := if c == '<' then s.job.(ifile := Some(line[b..e]), stdin := InputFd)
                   else s.job.(ofile := Some(line[b..e]), stdout := OutputFd);
        Next(Scan(SkipBlanks(line, e), s.cmd, job, false))
    else if c == '|' then
      match CloseProcess(s.job, s.cmd)
      case None => Stop(Failed(ArgvOverflow, s.job))
      case Some(job) => Next(Scan(s.pos + 1, [], job, true))
    else if c == '&' then Stop(Ended(s.(job := s.job.(bg := true)), Background))
    else if c == ';' then Stop(Ended(s, Sequence))
    else if c == '#' then Stop(Ended(s, Comment))
    else if !s.valid then Stop(Failed(CannotFathom, s.job))
    else if |s.cmd| == MaxLenCmdline - 1 then Stop(Failed(CmdTooLong, s.job))
    else Next(s.(pos := s.pos + 1, cmd := s.cmd + [c]))
  }

  /** The scan loop of one job, run until a case stops it. */
  function ScanJob(line: string, s: Scan): (r: ScanResult)
    requires s.pos <= |line|
    ensures r.Ended? ==> s.pos <= r.last.pos <= |line| && EndsAt(line, r.last.pos, r.ender)
    decreases |line| - s.pos
  {
    match Step(line, s)
    case Next(next) => ScanJob(line, next)
    case Stop(r) => r
  }

  /** The `<` and `>` cases of the switch: skip the spaces, copy the file name, and
      skip the blanks after it. */
  method RedirectCase(line: string, s: Scan) returns (r: StepResult)
    requires s.pos < |line| && (line[s.pos] == '<' || line[s.pos] == '>')
    ensures r == Step(line, s)
  {
    var c := line[s.pos];
    var b := SkipSpacesFrom(line, s.pos + 1);
    var name, fits, e := ReadFileName(line, b);
    if !fits {
      assert name == line[b..b + MaxLenFilename];
      var job := if c == '<' then s.job.(ifile := Some(name)) else s.job.(ofile := Some(name));
      return Stop(Failed(FileNameTooLong, job));
    }
    var job := if c == '<' then s.job.(ifile := Some(name), stdin := InputFd)
               else s.job.(ofile := Some(name), stdout := OutputFd);
    var next := SkipBlanksFrom(line, e);
    return Next(Scan(next, s.cmd, job, false));
  }

  /** The `|` case: close the process collected so far and start the next one. */
  method PipeCase(line: string, s: Scan) returns (r: StepResult)
    requires s.pos < |line| && line[s.pos] == '|' && Nul !in s.cmd
    ensures r == Step(line, s)
  {
    if |Words(s.cmd)| >= MaxArgs {
      return Stop(Failed(ArgvOverflow, s.job));
    }
    var p := ReadProcessInfo(InitProcess(), s.cmd);
    assert p == FilledProcess(s.cmd);
    return Next(Scan(s.pos + 1, [], s.job.(procs := s.job.procs + [p]), true));
  }

  /** The scan loop of readcmdline for one job, started at `start` with a fresh job:
      the switch on each character, until a case ends the job or gives up. */
  method ScanCommand(line: string, start: nat) returns (r: ScanResult)
    requires start <= |line|
    ensures r == ScanJob(line, Scan(start, [], InitJob(), true))
    ensures r.Ended? ==> Nul !in r.last.cmd
  {
    var s := Scan(start, [], InitJob(), true);
    while At(line, s.pos) != '\n' && At(line, s.pos) != Nul
      invariant s.pos <= |line| && Nul !in s.cmd
      invariant ScanJob(line, s) == ScanJob(line, Scan(start, [], InitJob(), true))
      decreases |line| - s.pos
    {
      var c := line[s.pos];
      var step;
      if c == '<' || c == '>' {
        step := RedirectCase(line, s);
      } else if c == '|' {
        step := PipeCase(line, s);
      } else if c == '&' {
        step := Stop(Ended(s.(job := s.job.(bg := true)), Background));
      } else if c == ';' {
        step := Stop(Ended(s, Sequence));
      } else if c == '#' {
        step := Stop(Ended(s, Comment));
      } else if !s.valid {
        step := Stop(Failed(CannotFathom, s.job));
      } else if |s.cmd| == MaxLenCmdline - 1 {
        step := Stop(Failed(CmdTooLong, s.job));
      } else {
        step := Next(s.(pos := s.pos + 1, cmd := s.cmd + [c]));
      }
      match step
      case Stop(result) => return result;
      case Next(next) => s := next;
    }
    return Ended(s, EndOfLine);
  }

  /** What strncpy leaves in the job's commandinfo: the text from seq_pos up to the
      character the scan stopped at. */
  function CommandText(line: string, seqPos: nat, pos: nat): string
    requires seqPos <= pos
  {
    CopyN(line, seqPos, pos - seqPos)
  }

  /** The outer loop of readcmdline from cmdline_pos = pos, with seq_pos = seqPos and
      the jobs `added` so far.  At a `;` the commandinfo is copied before the process is
      closed; otherwise after. */
  function ParseFrom(line: string, eof: bool, pos: nat, seqPos: nat, added: seq<Job>): (r: ParseResult)
    requires seqPos <= pos <= |line|
    ensures |added| <= |r.added| && r.added[..|added|] == added
    decreases |line| - pos
  {
    var start := SkipSpaces(line, pos);
    var c := At(line, start);
    if c == '\n' || c == Nul || eof then ParseResult(Blank, added)
    else
      match ScanJob(line, Scan(start, [], InitJob(), true))
      case Failed(e, job) => ParseResult(Rejected(e), added + [job])
      case Ended(last, ender) =>
        var text := CommandText(line, seqPos, last.pos);
        var job := if ender == Sequence then last.job.(commandinfo := text) else last.job;
        match CloseProcess(job, last.cmd)
        case None => ParseResult(Rejected(ArgvOverflow), added + [job])
        case Some(closed) =>
          if ender == Sequence then ParseFrom(line, eof, last.pos + 1, last.pos + 1, added + [closed])
          else ParseResult(Parsed, added + [closed.(commandinfo := text)])
  }

  /** readcmdline on one line read by fgets; `eof` is what feof(stdin) reports. */
  function ParseLine(line: string, eof: bool): ParseResult {
    ParseFrom(line, eof, 0, 0, [])
  }

  /** The value readcmdline returns. */
  function Returned(r: ParseResult): bool {
    !r.outcome.Blank?
  }
}
