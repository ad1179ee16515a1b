/** What the readcmdline of dsh-tmp.c makes of whole lines: pipelines, the three
    characters that end a job, redirections, and the two length limits. */
module TmpParserProps {

  import opened JobModel
  import opened Lexer
  import opened TmpParser

  /** Segments joined with `|`, as typed in a pipeline. */
  function Piped(segs: seq<string>): (r: string)
    requires segs != []
    ensures |r| >= |segs[0]| && r[..|segs[0]|] == segs[0]
    decreases |segs|
  {
    if |segs| == 1 then segs[0] else segs[0] + "|" + Piped(segs[1..])
  }

  /** The processes readprocessinfo fills from the segments, in order. */
  function Fill(segs: seq<string>): (ps: seq<Process>)
    ensures |ps| == |segs|
  {
    if segs == [] then [] else [FilledProcess(segs[0])] + Fill(segs[1..])
  }

  /** A segment the scanner copies whole into one command: no character the switch
      handles, shorter than the command buffer, and few enough words for argv. */
  predicate Simple(seg: string) {
    (forall k :: 0 <= k < |seg| ==> !Special(seg[k])) && |seg| < MaxLenCmdline && |Words(seg)| < MaxArgs
  }

  predicate AllSimple(segs: seq<string>) {
    forall i :: 0 <= i < |segs| ==> Simple(segs[i])
  }

  /** A job read from a pipeline: one process per segment, in order, the given
      commandinfo, and the standard descriptors. */
  function Pipeline(segs: seq<string>, bg: bool, info: string): Job {
    Job(-1, Fill(segs), info, None, None, StdinFileno, StdoutFileno, StderrFileno, bg, false)
  }

  /** The job a pipeline line should give, with the pipeline's text as its commandinfo. */
  function PipelineJob(segs: seq<string>, bg: bool): Job
    requires segs != []
  {
    Pipeline(segs, bg, Piped(segs))
  }

  /** The job while the last segment of the pipeline is still in the command buffer. */
  function PartialJob(segs: seq<string>, bg: bool, info: string): Job
    requires segs != []
  {
    Pipeline(segs[..|segs| - 1], bg, info)
  }

  /** The character that ends a job's text, and how the scan reports it. */
  function EnderOf(c: char): Ender {
    if c == '&' then Background else if c == ';' then Sequence else if c == '#' then Comment else EndOfLine
  }

  /** The job with more processes linked at the end of its pipeline. */
  function WithProcs(job: Job, ps: seq<Process>): Job {
    job.(procs := job.procs + ps)
  }

  /** A run of plain characters is appended to the command one by one. */
  lemma {:induction false} ScanPlain(line: string, pos: nat, e: nat, cmd: string, out: string, job: Job)
    requires pos <= e <= |line|
    requires forall k :: pos <= k < e ==> !Special(line[k])
    requires |cmd| + (e - pos) <= MaxLenCmdline - 1
    requires out == cmd + line[pos..e]
    ensures ScanJob(line, Scan(pos, cmd, job, true)) == ScanJob(line, Scan(e, out, job, true))
    decreases e - pos
  {
    if pos < e {
      ScanPlainStep(line, pos, cmd, job);
      assert out == (cmd + [line[pos]]) + line[pos + 1..e];
      ScanPlain(line, pos + 1, e, cmd + [line[pos]], out, job);
    } else {
      assert out == cmd;
    }
  }

  /** The default case of the switch copies one plain character. */
  lemma ScanPlainStep(line: string, pos: nat, cmd: string, job: Job)
    requires pos < |line| && !Special(line[pos]) && |cmd| < MaxLenCmdline - 1
    ensures ScanJob(line, Scan(pos, cmd, job, true)) == ScanJob(line, Scan(pos + 1, cmd + [line[pos]], job, true))
  {
    assert Step(line, Scan(pos, cmd, job, true)) == Next(Scan(pos + 1, cmd + [line[pos]], job, true));
  }

  /** Every character of a pipeline's text is a `|` or one the scanner copies. */
  lemma {:induction false} PipedChars(segs: seq<string>)
    requires segs != [] && AllSimple(segs)
    ensures forall k :: 0 <= k < |Piped(segs)| ==> Piped(segs)[k] == '|' || !Special(Piped(segs)[k])
    decreases |segs|
  {
    if |segs| > 1 {
      PipedChars(segs[1..]);
      var p := Piped(segs);
      assert p == segs[0] + "|" + Piped(segs[1..]);
      forall k | 0 <= k < |p|
        ensures p[k] == '|' || !Special(p[k])
      {
        if k > |segs[0]| {
          assert p[k] == Piped(segs[1..])[k - |segs[0]| - 1];
        }
      }
    }
  }

  /** Closing one more process appends it to the pipeline. */
  lemma {:induction false} FillAppend(segs: seq<string>, x: string)
    ensures Fill(segs + [x]) == Fill(segs) + [FilledProcess(x)]
    decreases |segs|
  {
    if segs != [] {
      assert (segs + [x])[1..] == segs[1..] + [x];
      FillAppend(segs[1..], x);
    }
  }

  /** A simple segment is copied whole into the command. */
  lemma ScanSegment(line: string, pos: nat, e: nat, job: Job, a: string)
    requires Plain(a) && |a| < MaxLenCmdline && e == pos + |a| && e <= |line| && line[pos..e] == a
    ensures ScanJob(line, Scan(pos, [], job, true)) == ScanJob(line, Scan(e, a, job, true))
  {
    PlainWindow(line, pos, e, a);
    assert [] + line[pos..e] == a;
    ScanPlain(line, pos, e, [], a, job);
  }

  /** The characters of a line where plain text sits are plain. */
  lemma PlainWindow(line: string, pos: nat, e: nat, a: string)
    requires Plain(a) && e == pos + |a| && e <= |line| && line[pos..e] == a
    ensures forall k :: pos <= k < e ==> !Special(line[k])
  {
    forall k | pos <= k < e
      ensures !Special(line[k])
    {
      assert line[k] == a[k - pos] && !Special(a[k - pos]);
    }
  }

  /** A `|` closes the process read from the command so far and starts a new one. */
  lemma ScanBar(line: string, pos: nat, next: nat, job: Job, a: string)
    requires pos < |line| && line[pos] == '|' && next == pos + 1 && |Words(a)| < MaxArgs
    ensures ScanJob(line, Scan(pos, a, job, true)) ==
      ScanJob(line, Scan(next, [], WithProcs(job, [FilledProcess(a)]), true))
  {
  }

  /** Where the pieces of a pipeline of two or more segments sit in the line. */
  lemma PipedSplit(line: string, pos: nat, bar: nat, next: nat, end: nat, segs: seq<string>)
    requires |segs| > 1 && bar == pos + |segs[0]| && next == bar + 1 && end == pos + |Piped(segs)|
    requires end <= |line| && line[pos..end] == Piped(segs)
    ensures line[pos..bar] == segs[0]
    ensures line[bar] == '|'
    ensures end == next + |Piped(segs[1..])|
    ensures line[next..end] == Piped(segs[1..])
  {
    var a := segs[0];
    var p := Piped(segs);
    assert p == a + "|" + Piped(segs[1..]);
    assert line[pos..pos + |a|] == p[..|a|];
    assert line[pos + |a|] == p[|a|];
    assert line[pos + |a| + 1..pos + |p|] == p[|a| + 1..];
  }

  lemma PipedLength(segs: seq<string>)
    requires |segs| > 1
    ensures |Piped(segs)| == |segs[0]| + 1 + |Piped(segs[1..])|
  {
  }

  /** The processes before the last segment: the first one, then those of the rest. */
  lemma FillHead(segs: seq<string>)
    requires |segs| > 1
    ensures Fill(segs[..|segs| - 1]) == [FilledProcess(segs[0])] + Fill(segs[1..][..|segs| - 2])
  {
    assert segs[..|segs| - 1][1..] == segs[1..][..|segs| - 2];
  }

  /** Where the scan of a pipeline stops when c follows it at end: at c, with the
      last segment still in the command, a process linked for each segment before it,
      and bg set when c is `&`. */
  function PipeEnd(end: nat, job: Job, segs: seq<string>, c: char): ScanResult
    requires segs != []
  {
    var j := WithProcs(job, Fill(segs[..|segs| - 1]));
    Ended(Scan(end, segs[|segs| - 1], if c == '&' then j.(bg := true) else j, true), EnderOf(c))
  }

  /** After the first segment and its `|`, the rest of the pipeline stops where the
      whole pipeline does. */
  lemma PipeEndCons(end: nat, job: Job, segs: seq<string>, c: char)
    requires |segs| > 1
    ensures PipeEnd(end, WithProcs(job, [FilledProcess(segs[0])]), segs[1..], c) == PipeEnd(end, job, segs, c)
  {
    FillHead(segs);
    AppendAssoc(job.procs, [FilledProcess(segs[0])], Fill(segs[1..][..|segs| - 2]));
  }

  lemma PipeEndSingle(end: nat, job: Job, segs: seq<string>, c: char)
    requires |segs| == 1
    ensures PipeEnd(end, job, segs, c) ==
      Ended(Scan(end, segs[0], if c == '&' then job.(bg := true) else job, true), EnderOf(c))
  {
    assert Fill(segs[..0]) == [];
    assert job.procs + [] == job.procs;
  }

  /** The segments of a pipeline are scanned one after the other: each `|` closes the
      process read from the segment before it, and the character after the last
      segment ends the job. */
  lemma {:induction false} ScanPipeline(line: string, pos: nat, end: nat, job: Job, segs: seq<string>, c: char)
    requires segs != [] && AllSimple(segs) && end == pos + |Piped(segs)|
    requires end < |line| && line[pos..end] == Piped(segs)
    requires line[end] == c && c in "\n&;#"
    ensures ScanJob(line, Scan(pos, [], job, true)) == PipeEnd(end, job, segs, c)
    decreases |segs|
  {
    if |segs| == 1 {
      ScanSegment(line, pos, end, job, segs[0]);
      ScanEnd(line, end, segs[0], job, c);
      PipeEndSingle(end, job, segs, c);
    } else {
      var bar := pos + |segs[0]|;
      var next := bar + 1;
      PipedSplit(line, pos, bar, next, end, segs);
      AllSimpleTail(segs);
      var job1 := WithProcs(job, [FilledProcess(segs[0])]);
      ScanPipeline(line, next, end, job1, segs[1..], c);
      ScanPipelineCons(line, pos, bar, next, job, segs[0], PipeEnd(end, job1, segs[1..], c));
      PipeEndCons(end, job, segs, c);
    }
  }

  lemma AllSimpleTail(segs: seq<string>)
    requires segs != [] && AllSimple(segs)
    ensures Simple(segs[0]) && AllSimple(segs[1..])
  {
    forall i | 0 <= i < |segs[1..]|
      ensures Simple(segs[1..][i])
    {
      assert segs[1..][i] == segs[i + 1];
    }
  }

  /** The step of ScanPipeline: the first segment and its `|`, after which the scan
      ends in r. */
  lemma ScanPipelineCons(line: string, pos: nat, bar: nat, next: nat, job: Job, a: string, r: ScanResult)
    requires Plain(a) && |a| < MaxLenCmdline && |Words(a)| < MaxArgs
    requires bar == pos + |a| && next == bar + 1
    requires bar < |line| && line[pos..bar] == a && line[bar] == '|'
    requires ScanJob(line, Scan(next, [], WithProcs(job, [FilledProcess(a)]), true)) == r
    ensures ScanJob(line, Scan(pos, [], job, true)) == r
  {
    ScanSegment(line, pos, bar, job, a);
    ScanBar(line, bar, next, job, a);
  }

  /** A pipeline followed by a character that ends the job scans to that character. */
  lemma ScanPipelineTo(line: string, pos: nat, e: nat, segs: seq<string>, c: char)
    requires segs != [] && AllSimple(segs) && e == pos + |Piped(segs)|
    requires e < |line| && line[pos..e] == Piped(segs)
    requires line[e] == c && c in "\n&;#"
    ensures ScanJob(line, Scan(pos, [], InitJob(), true)) ==
      Ended(Scan(e, segs[|segs| - 1], PartialJob(segs, c == '&', []), true), EnderOf(c))
  {
    ScanPipeline(line, pos, e, InitJob(), segs, c);
    var f := Fill(segs[..|segs| - 1]);
    var j := WithProcs(InitJob(), f);
    assert [] + f == f;
    assert j == PartialJob(segs, false, []);
    if c == '&' {
      assert j.(bg := true) == PartialJob(segs, true, []);
    }
  }

  /** A character that ends the job stops the scan where it stands; `&` marks the job
      as a background job. */
  lemma ScanEnd(line: string, q: nat, cmd: string, job: Job, c: char)
    requires q < |line| && line[q] == c && c in "\n&;#"
    ensures ScanJob(line, Scan(q, cmd, job, true)) ==
      Ended(Scan(q, cmd, if c == '&' then job.(bg := true) else job, true), EnderOf(c))
  {
    var s := Scan(q, cmd, job, true);
    if c == '&' {
      assert Step(line, s) == Stop(Ended(s.(job := job.(bg := true)), Background));
    } else {
      assert Step(line, s) == Stop(Ended(s, EnderOf(c)));
    }
  }

  /** Closing the last process of a scanned pipeline gives the pipeline's job. */
  lemma ClosePipeline(segs: seq<string>, bg: bool, info: string)
    requires segs != [] && AllSimple(segs)
    ensures CloseProcess(PartialJob(segs, bg, info), segs[|segs| - 1]) == Some(Pipeline(segs, bg, info))
  {
    var n := |segs| - 1;
    assert Simple(segs[n]);
    FillAppend(segs[..n], segs[n]);
    assert segs[..n] + [segs[n]] == segs;
  }

  /** The commandinfo copied for a pipeline is its whole text. */
  lemma PipelineText(line: string, pos: nat, e: nat, segs: seq<string>)
    requires segs != [] && AllSimple(segs) && e == pos + |Piped(segs)|
    requires e <= |line| && line[pos..e] == Piped(segs)
    ensures CommandText(line, pos, e) == Piped(segs)
  {
    var p := Piped(segs);
    PipedChars(segs);
    forall k | pos <= k < e
      ensures line[k] != Nul
    {
      assert line[k] == p[k - pos];
    }
    CopyNSpan(line, pos, |p|);
  }

  /** A pipeline that does not start with a space. */
  predicate Starts(segs: seq<string>) {
    segs != [] && AllSimple(segs) && segs[0] != [] && !IsSpace(segs[0][0])
  }

  /** A pipeline at `pos` followed by a newline, `&` or `#` is the last job of the line. */
  lemma ParsePipelineEnd(line: string, pos: nat, added: seq<Job>, segs: seq<string>, c: char, e: nat)
    requires Starts(segs) && e == pos + |Piped(segs)|
    requires e < |line| && line[pos..e] == Piped(segs)
    requires line[e] == c && c in "\n&#"
    ensures ParseFrom(line, false, pos, pos, added) == ParseResult(Parsed, added + [PipelineJob(segs, c == '&')])
  {
    PipelineStart(line, pos, e, segs);
    ScanPipelineTo(line, pos, e, segs, c);
    PipelineText(line, pos, e, segs);
    ClosePipeline(segs, c == '&', []);
    assert Pipeline(segs, c == '&', []).(commandinfo := Piped(segs)) == PipelineJob(segs, c == '&');
  }

  /** A pipeline at `pos` followed by `;`: its job is linked and readcmdline goes on
      after the `;`. */
  lemma ParsePipelineSeq(line: string, pos: nat, added: seq<Job>, segs: seq<string>, e: nat, next: nat)
    requires Starts(segs) && e == pos + |Piped(segs)| && next == e + 1
    requires e < |line| && line[pos..e] == Piped(segs)
    requires line[e] == ';'
    ensures ParseFrom(line, false, pos, pos, added) ==
      ParseFrom(line, false, next, next, added + [PipelineJob(segs, false)])
  {
    PipelineStart(line, pos, e, segs);
    ScanPipelineTo(line, pos, e, segs, ';');
    PipelineText(line, pos, e, segs);
    ClosePipeline(segs, false, Piped(segs));
    var last := Scan(e, segs[|segs| - 1], PartialJob(segs, false, []), true);
    assert last.job.(commandinfo := CommandText(line, pos, e)) == PartialJob(segs, false, Piped(segs));
    ParseSeqStep(line, pos, added, last, PipelineJob(segs, false), next);
  }

  /** One turn of readcmdline's outer loop that ends at a `;`: the job is closed with
      the text before the `;` as its commandinfo, and the loop goes on after it. */
  lemma ParseSeqStep(line: string, pos: nat, added: seq<Job>, last: Scan, closed: Job, next: nat)
    requires pos <= |line| && SkipSpaces(line, pos) == pos && At(line, pos) != '\n' && At(line, pos) != Nul
    requires ScanJob(line, Scan(pos, [], InitJob(), true)) == Ended(last, Sequence)
    requires pos <= last.pos && next == last.pos + 1 && next <= |line|
    requires CloseProcess(last.job.(commandinfo := CommandText(line, pos, last.pos)), last.cmd) == Some(closed)
    ensures ParseFrom(line, false, pos, pos, added) == ParseFrom(line, false, next, next, added + [closed])
  {
  }

  /** readcmdline's skip of leading whitespace stops at once on a pipeline. */
  lemma PipelineStart(line: string, pos: nat, e: nat, segs: seq<string>)
    requires Starts(segs) && e == pos + |Piped(segs)|
    requires e < |line| && line[pos..e] == Piped(segs)
    ensures SkipSpaces(line, pos) == pos && At(line, pos) != '\n' && At(line, pos) != Nul
  {
    assert line[pos] == Piped(segs)[0] == segs[0][0];
    assert Simple(segs[0]);
  }

  /** Where each piece of a concatenation sits. */
  lemma Window(pre: string, mid: string, post: string)
    ensures (pre + mid + post)[|pre|..|pre| + |mid|] == mid
    ensures (pre + mid + post)[|pre| + |mid|..] == post
  {
  }

  /** A line holding one pipeline, ended by a newline, `&` or `#`, links one job with
      a process per segment; `&` makes it a background job, and nothing after the
      ending character is read. */
  lemma PipelineLine(segs: seq<string>, c: char, rest: string)
    requires Starts(segs) && c in "\n&#"
    ensures ParseLine(Piped(segs) + [c] + rest, false) == ParseResult(Parsed, [PipelineJob(segs, c == '&')])
  {
    var line := Piped(segs) + [c] + rest;
    assert line[0..|Piped(segs)|] == Piped(segs);
    ParsePipelineEnd(line, 0, [], segs, c, |Piped(segs)|);
  }

  /** Where the two pipelines of a `;` line sit. */
  lemma SequenceLayout(p1: string, p2: string, c: char, rest: string)
    ensures var line := p1 + ";" + p2 + [c] + rest;
      |p1| + 1 + |p2| < |line| && line[0..|p1|] == p1 && line[|p1|] == ';' &&
      line[|p1| + 1..|p1| + 1 + |p2|] == p2 && line[|p1| + 1 + |p2|] == c
  {
    var line := p1 + ";" + p2 + [c] + rest;
    Window([], p1, ";" + p2 + [c] + rest);
    assert line == p1 + ";" + (p2 + [c] + rest);
    Window(p1 + ";", p2, [c] + rest);
  }

  /** Two pipelines separated by `;` link two jobs, each with its own text as its
      commandinfo. */
  lemma SequenceLine(segs1: seq<string>, segs2: seq<string>, c: char, rest: string)
    requires Starts(segs1) && Starts(segs2) && c in "\n&#"
    ensures ParseLine(Piped(segs1) + ";" + Piped(segs2) + [c] + rest, false) ==
      ParseResult(Parsed, [PipelineJob(segs1, false), PipelineJob(segs2, c == '&')])
  {
    var p1 := Piped(segs1);
    var p2 := Piped(segs2);
    SequenceLayout(p1, p2, c, rest);
    SequenceLineAt(p1 + ";" + p2 + [c] + rest, segs1, segs2, c, |p1|, |p1| + 1, |p1| + 1 + |p2|);
  }

  /** SequenceLine for a line known only through where its pieces sit: the first
      pipeline ends at q. */
  lemma SequenceLineAt(line: string, segs1: seq<string>, segs2: seq<string>, c: char, q: nat, n: nat, e: nat)
    requires Starts(segs1) && Starts(segs2) && c in "\n&#"
    requires q == |Piped(segs1)| && n == q + 1 && e == n + |Piped(segs2)| && e < |line|
    requires line[0..q] == Piped(segs1) && line[q] == ';'
    requires line[n..e] == Piped(segs2) && line[e] == c
    ensures ParseFrom(line, false, 0, 0, []) == ParseResult(Parsed, [PipelineJob(segs1, false), PipelineJob(segs2, c == '&')])
  {
    var j1 := PipelineJob(segs1, false);
    var j2 := PipelineJob(segs2, c == '&');
    ParsePipelineSeq(line, 0, [], segs1, q, n);
    ParsePipelineEnd(line, n, [] + [j1], segs2, c, e);
    assert [] + [j1] + [j2] == [j1, j2];
  }

  /** A `;` with nothing but whitespace after it: the job before it is linked, yet
      readcmdline returns false, as for a blank line. */
  lemma TrailingSemicolon(segs: seq<string>, blank: string)
    requires Starts(segs) && AllSpace(blank)
    ensures ParseLine(Piped(segs) + ";" + blank, false) == ParseResult(Blank, [PipelineJob(segs, false)])
    ensures !Returned(ParseLine(Piped(segs) + ";" + blank, false))
  {
    var p := Piped(segs);
    var line := p + ";" + blank;
    assert line[0..|p|] == p;
    assert line[|p|] == ';';
    var q := |p| + 1;
    ParsePipelineSeq(line, 0, [], segs, |p|, q);
    assert forall k :: q <= k < |line| ==> IsSpace(line[k]) by {
      forall k | q <= k < |line|
        ensures IsSpace(line[k])
      {
        assert line[k] == blank[k - q];
      }
    }
    assert SkipSpaces(line, q) == |line|;
  }

  /** readcmdline links no job exactly when, after the leading whitespace, the line
      ends or stdin is at end of file; then it returns false. */
  lemma NoJobIffBlank(line: string, eof: bool)
    ensures ParseLine(line, eof).added == [] <==>
      (eof || At(line, SkipSpaces(line, 0)) == '\n' || At(line, SkipSpaces(line, 0)) == Nul)
    ensures ParseLine(line, eof).added == [] ==> !Returned(ParseLine(line, eof))
  {
    var r := ParseLine(line, eof);
    var start := SkipSpaces(line, 0);
    if !(eof || At(line, start) == '\n' || At(line, start) == Nul) {
      match ScanJob(line, Scan(start, [], InitJob(), true))
      case Failed(e, job) =>
      case Ended(last, ender) =>
        var text := CommandText(line, 0, last.pos);
        var job := if ender == Sequence then last.job.(commandinfo := text) else last.job;
        match CloseProcess(job, last.cmd)
        case None =>
        case Some(closed) =>
          if ender == Sequence {
            var r2 := ParseFrom(line, eof, last.pos + 1, last.pos + 1, [closed]);
            assert r2.added[..1] == [closed];
          }
    }
  }

  /** What the `<` or `>` case stores when it gives up: the buffer it filled. */
  function SetFile(job: Job, c: char, name: string): Job {
    if c == '<' then job.(ifile := Some(name)) else job.(ofile := Some(name))
  }

  /** What the `<` or `>` case stores for a file name that fits: the name, and the
      descriptor number the job will redirect. */
  function Redirect(job: Job, c: char, name: string): Job {
    if c == '<' then job.(ifile := Some(name), stdin := InputFd)
    else job.(ofile := Some(name), stdout := OutputFd)
  }

  /** A file name as the redirect loop copies it: a run of characters that are neither
      spaces nor NUL. */
  predicate FileWord(name: string) {
    name != [] && forall k :: 0 <= k < |name| ==> !IsSpace(name[k]) && name[k] != Nul
  }

  /** The `<` and `>` cases: the spaces after the operator are skipped, newlines
      included, and the word that follows is stored as the file name, or refused when
      it is longer than MaxLenFilename. */
  lemma ScanRedirect(line: string, pos: nat, b: nat, e: nat, cmd: string, job: Job, valid: bool, c: char, name: string)
    requires c in "<>" && FileWord(name)
    requires pos < b && e == b + |name| && e <= |line| && line[pos] == c
    requires AllSpace(line[pos + 1..b]) && line[b..e] == name
    requires At(line, e) == Nul || IsSpace(At(line, e))
    ensures |name| > MaxLenFilename ==>
      ScanJob(line, Scan(pos, cmd, job, valid)) == Failed(FileNameTooLong, SetFile(job, c, name[..MaxLenFilename]))
    ensures |name| <= MaxLenFilename ==>
      ScanJob(line, Scan(pos, cmd, job, valid)) ==
      ScanJob(line, Scan(SkipBlanks(line, e), cmd, Redirect(job, c, name), false))
  {
    forall k | pos + 1 <= k < b
      ensures IsSpace(line[k])
    {
      assert line[k] == line[pos + 1..b][k - pos - 1];
    }
    assert line[b] == name[0];
    SkipSpacesUnique(line, pos + 1, b);
    forall k | b <= k < e
      ensures At(line, k) != Nul && !IsSpace(At(line, k))
    {
      assert line[k] == name[k - b];
    }
    WordEndUnique(line, b, e);
    if |name| > MaxLenFilename {
      WindowPrefix(line, b, name, MaxLenFilename);
    }
  }

  /** The first n characters of a window that holds `name` are the first n of `name`. */
  lemma WindowPrefix(line: string, b: nat, name: string, n: nat)
    requires b + |name| <= |line| && line[b..b + |name|] == name && n <= |name|
    ensures line[b..b + n] == name[..n]
  {
    forall k | 0 <= k < n
      ensures line[b..b + n][k] == name[..n][k]
    {
      assert line[b..b + |name|][k] == line[b + k];
    }
  }

  /** The job a command with one redirection should give; `sp` is the whitespace
      between the operator and the name. */
  function RedirectJob(a: string, c: char, sp: string, name: string): Job {
    Job(-1, [FilledProcess(a)], a + [c] + sp + name,
        if c == '<' then Some(name) else None, if c == '<' then None else Some(name),
        if c == '<' then InputFd else StdinFileno, if c == '<' then StdoutFileno else OutputFd,
        StderrFileno, false, false)
  }

  /** Where the pieces of `a`, the operator, the spaces, the name and what follows sit:
      q, b and e are where the operator, the name and what follows start. */
  lemma RedirectLayout(a: string, c: char, sp: string, name: string, tail: string, q: nat, b: nat, e: nat)
    requires q == |a| && b == q + 1 + |sp| && e == b + |name|
    ensures var line := a + [c] + sp + name + tail;
      |line| == e + |tail| && line[0..q] == a && line[q] == c &&
      line[q + 1..b] == sp && line[b..e] == name && line[e..] == tail
  {
    var line := a + [c] + sp + name + tail;
    Window([], a, [c] + sp + name + tail);
    assert line == a + ([c] + sp + name + tail);
    Window(a + [c], sp, name + tail);
    assert line == a + [c] + sp + (name + tail);
    Window(a + [c] + sp, name, tail);
  }

  /** A redirected command is scanned past the name and the blanks after it, or
      refused at a name that does not fit. */
  lemma ScanRedirectLine(line: string, a: string, c: char, name: string, q: nat, b: nat, e: nat)
    requires Simple(a) && c in "<>" && FileWord(name) && q == |a| && q < b && e == b + |name|
    requires e < |line| && line[0..q] == a && line[q] == c
    requires AllSpace(line[q + 1..b]) && line[b..e] == name && IsSpace(line[e])
    ensures |name| <= MaxLenFilename ==>
      ScanJob(line, Scan(0, [], InitJob(), true)) ==
      ScanJob(line, Scan(SkipBlanks(line, e), a, Redirect(InitJob(), c, name), false))
    ensures |name| > MaxLenFilename ==>
      ScanJob(line, Scan(0, [], InitJob(), true)) ==
      Failed(FileNameTooLong, SetFile(InitJob(), c, name[..MaxLenFilename]))
  {
    ScanSegment(line, 0, q, InitJob(), a);
    ScanRedirect(line, q, b, e, a, InitJob(), true, c, name);
  }

  /** readcmdline's skip of leading whitespace stops at once on a command that does not
      start with a space. */
  lemma CommandStart(a: string, tail: string)
    requires Simple(a) && a != [] && !IsSpace(a[0])
    ensures SkipSpaces(a + tail, 0) == 0 && At(a + tail, 0) != '\n' && At(a + tail, 0) != Nul
  {
    assert (a + tail)[0] == a[0];
  }

  /** A command with one redirection at the end of the line, with any whitespace
      between the operator and the name: the command becomes the job's one process,
      the name is stored, and the text up to the end of the name is the commandinfo. */
  lemma RedirectLine(a: string, c: char, sp: string, name: string)
    requires Simple(a) && a != [] && !IsSpace(a[0]) && c in "<>" && AllSpace(sp) && FileWord(name)
    requires |name| <= MaxLenFilename
    ensures ParseLine(a + [c] + sp + name + "\n", false) == ParseResult(Parsed, [RedirectJob(a, c, sp, name)])
  {
    var line := a + [c] + sp + name + "\n";
    var q, b, e := |a|, |a| + 1 + |sp|, |a| + 1 + |sp| + |name|;
    RedirectLayout(a, c, sp, name, "\n", q, b, e);
    assert line[..e] == a + [c] + sp + name;
    RedirectLineAt(line, a, c, sp, name, q, b, e);
  }

  /** RedirectLine on a line described by where its pieces sit. */
  lemma RedirectLineAt(line: string, a: string, c: char, sp: string, name: string, q: nat, b: nat, e: nat)
    requires Simple(a) && a != [] && !IsSpace(a[0]) && c in "<>" && AllSpace(sp) && FileWord(name)
    requires |name| <= MaxLenFilename && q == |a| && b == q + 1 + |sp| && e == b + |name| && e < |line|
    requires line[0..q] == a && line[q] == c && line[q + 1..b] == sp && line[b..e] == name && line[e] == '\n'
    requires line[..e] == a + [c] + sp + name
    ensures ParseLine(line, false) == ParseResult(Parsed, [RedirectJob(a, c, sp, name)])
  {
    ScanRedirectLine(line, a, c, name, q, b, e);
    assert line[0] == a[0];
    var r := Redirect(InitJob(), c, name);
    assert SkipBlanks(line, e) == e;
    assert Step(line, Scan(e, a, r, false)) == Stop(Ended(Scan(e, a, r, false), EndOfLine));
    RedirectCommandText(line, a, c, sp, name, e);
    assert r.procs == [];
    assert r.procs + [FilledProcess(a)] == [FilledProcess(a)];
    assert CloseProcess(r, a) == Some(r.(procs := [FilledProcess(a)]));
    assert r.(procs := [FilledProcess(a)]).(commandinfo := a + [c] + sp + name) == RedirectJob(a, c, sp, name);
  }

  /** A file name longer than MaxLenFilename makes readcmdline give up on the line; the
      job stays linked, holding the part of the name that was copied. */
  lemma RedirectNameTooLong(a: string, c: char, sp: string, name: string)
    requires Simple(a) && a != [] && !IsSpace(a[0]) && c in "<>" && AllSpace(sp) && FileWord(name)
    requires |name| > MaxLenFilename
    ensures ParseLine(a + [c] + sp + name + "\n", false) ==
      ParseResult(Rejected(FileNameTooLong), [SetFile(InitJob(), c, name[..MaxLenFilename])])
    ensures Returned(ParseLine(a + [c] + sp + name + "\n", false))
  {
    var line := a + [c] + sp + name + "\n";
    var q, b, e := |a|, |a| + 1 + |sp|, |a| + 1 + |sp| + |name|;
    RedirectLayout(a, c, sp, name, "\n", q, b, e);
    ScanRedirectLine(line, a, c, name, q, b, e);
    CommandStart(a, [c] + sp + name + "\n");
    assert a + ([c] + sp + name + "\n") == line;
  }

  /** Only `|`, `&`, `;`, `#`, another redirection or the end of the line may follow a
      redirection: a word after the file name makes readcmdline give up on the line, and
      the job it links has no process. */
  lemma RedirectThenWord(a: string, c: char, sp: string, name: string, rest: string)
    requires Simple(a) && a != [] && !IsSpace(a[0]) && c in "<>" && AllSpace(sp) && FileWord(name)
    requires |name| <= MaxLenFilename
    requires rest != [] && !Special(rest[0]) && !IsSpace(rest[0])
    ensures ParseLine(a + [c] + sp + name + " " + rest, false) ==
      ParseResult(Rejected(CannotFathom), [Redirect(InitJob(), c, name)])
  {
    var line := a + [c] + sp + name + " " + rest;
    var q, b, e := |a|, |a| + 1 + |sp|, |a| + 1 + |sp| + |name|;
    assert line == a + [c] + sp + name + (" " + rest);
    RedirectLayout(a, c, sp, name, " " + rest, q, b, e);
    RedirectThenWordAt(line, a, c, sp, name, q, b, e);
  }

  /** RedirectThenWord on a line described by where its pieces sit. */
  lemma RedirectThenWordAt(line: string, a: string, c: char, sp: string, name: string, q: nat, b: nat, e: nat)
    requires Simple(a) && a != [] && !IsSpace(a[0]) && c in "<>" && AllSpace(sp) && FileWord(name)
    requires |name| <= MaxLenFilename && q == |a| && b == q + 1 + |sp| && e == b + |name| && e + 1 < |line|
    requires line[0..q] == a && line[q] == c && line[q + 1..b] == sp && line[b..e] == name
    requires line[e] == ' ' && !Special(line[e + 1]) && !IsSpace(line[e + 1])
    ensures ParseLine(line, false) == ParseResult(Rejected(CannotFathom), [Redirect(InitJob(), c, name)])
  {
    ScanRedirectLine(line, a, c, name, q, b, e);
    assert line[0] == a[0];
    assert SkipBlanks(line, e) == e + 1;
  }

  /** The commandinfo of a redirected command is the text up to the end of the name. */
  lemma RedirectCommandText(line: string, a: string, c: char, sp: string, name: string, e: nat)
    requires Simple(a) && c in "<>" && AllSpace(sp) && FileWord(name)
    requires e == |a| + 1 + |sp| + |name| && e <= |line| && line[..e] == a + [c] + sp + name
    ensures CommandText(line, 0, e) == a + [c] + sp + name
  {
    var t := a + [c] + sp + name;
    forall k | 0 <= k < |t|
      ensures line[k] != Nul
    {
      assert line[k] == t[k];
      if k < |a| {
        assert t[k] == a[k];
      } else if |a| < k < |a| + 1 + |sp| {
        assert t[k] == sp[k - |a| - 1];
      } else if k >= |a| + 1 + |sp| {
        assert t[k] == name[k - |a| - 1 - |sp|];
      }
    }
    CopyNSpan(line, 0, |t|);
  }

  /** A scan that gives up because its command is too long. */
  predicate TooLong(r: ScanResult) {
    r.Failed? && r.error == CmdTooLong
  }

  /** One step adds at most one character to the command per character it passes. */
  lemma StepCommandGrowth(line: string, s: Scan)
    requires s.pos <= |line| && |s.cmd| <= s.pos
    ensures Step(line, s).Next? ==> |Step(line, s).next.cmd| <= Step(line, s).next.pos
    ensures |line| < MaxLenCmdline ==> !(Step(line, s).Stop? && TooLong(Step(line, s).result))
  {
  }

  /** While the command holds no more characters than the scan has passed, a line that
      fits the buffer never makes the scan give up for length. */
  lemma {:induction false} ScanNeverTooLong(line: string, s: Scan)
    requires |line| < MaxLenCmdline && s.pos <= |line| && |s.cmd| <= s.pos
    ensures !TooLong(ScanJob(line, s))
    decreases |line| - s.pos
  {
    StepCommandGrowth(line, s);
    match Step(line, s)
    case Next(next) => ScanNeverTooLong(line, next);
    case Stop(r) =>
  }

  lemma {:induction false} ParseNeverTooLong(line: string, eof: bool, pos: nat, seqPos: nat, added: seq<Job>)
    requires |line| < MaxLenCmdline && seqPos <= pos <= |line|
    ensures ParseFrom(line, eof, pos, seqPos, added).outcome != Rejected(CmdTooLong)
    decreases |line| - pos
  {
    var start := SkipSpaces(line, pos);
    var c := At(line, start);
    if !(c == '\n' || c == Nul || eof) {
      ScanNeverTooLong(line, Scan(start, [], InitJob(), true));
      match ScanJob(line, Scan(start, [], InitJob(), true))
      case Failed(e, job) =>
      case Ended(last, ender) =>
        var text := CommandText(line, seqPos, last.pos);
        var job := if ender == Sequence then last.job.(commandinfo := text) else last.job;
        match CloseProcess(job, last.cmd)
        case None =>
        case Some(closed) =>
          if ender == Sequence {
            ParseNeverTooLong(line, eof, last.pos + 1, last.pos + 1, added + [closed]);
          }
    }
  }

  /** fgets stores at most MaxLenCmdline - 1 characters, so the command-length check of
      readcmdline never fires on a line it read. */
  lemma LineNeverTooLong(line: string, eof: bool)
    requires |line| <= MaxLenCmdline - 1
    ensures ParseLine(line, eof).outcome != Rejected(CmdTooLong)
  {
    ParseNeverTooLong(line, eof, 0, 0, []);
  }

  /** The check fires on the first command character past MaxLenCmdline - 1, in a
      buffer longer than fgets fills. */
  lemma LongCommand(line: string)
    requires MaxLenCmdline < |line| && !IsSpace(line[0])
    requires forall k :: 0 <= k < MaxLenCmdline ==> !Special(line[k])
    ensures ParseLine(line, false) == ParseResult(Rejected(CmdTooLong), [InitJob()])
  {
    var n := MaxLenCmdline - 1;
    assert SkipSpaces(line, 0) == 0;
    assert [] + line[0..n] == line[0..n];
    ScanPlain(line, 0, n, [], line[0..n], InitJob());
    var s1 := Scan(n, line[0..n], InitJob(), true);
    assert Step(line, s1) == Stop(Failed(CmdTooLong, InitJob()));
    assert [] + [InitJob()] == [InitJob()];
  }
}
