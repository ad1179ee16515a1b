/** What the readcmdline of dsh.c makes of whole lines, and where it parts from the
    readcmdline of dsh-tmp.c. */
module DshParserProps {

  import opened JobModel
  import opened Lexer
  import opened DshParser
  import TmpParser
  import TmpParserProps

  /** On a line with no `#` and no `|` from the scan position on, the two scanners
      agree. */
  lemma {:induction false} ScansAgree(line: string, s: Scan)
    requires s.pos <= |line|
    requires forall k :: s.pos <= k < |line| ==> line[k] != '#' && line[k] != '|'
    ensures ScanJob(line, s) == TmpParser.ScanJob(line, s)
    decreases |line| - s.pos
  {
    assert Step(line, s) == TmpParser.Step(line, s);
    match Step(line, s)
    case Next(next) => ScansAgree(line, next);
    case Stop(r) =>
  }

  /** At a `#`, dsh-tmp.c ends the job while dsh.c copies the `#` into the command. */
  lemma HashIsCommandText(line: string, s: Scan)
    requires s.pos < |line| && line[s.pos] == '#' && s.valid && |s.cmd| < MaxLenCmdline - 1
    ensures TmpParser.Step(line, s) == Stop(Ended(s, Comment))
    ensures Step(line, s) == Next(s.(pos := s.pos + 1, cmd := s.cmd + "#"))
  {
  }

  /** Characters dsh.c copies into a command: any but those its switch handles. */
  predicate CommandChar(c: char) {
    !Special(c) || c == '#'
  }

  /** Text the scanner of dsh.c copies whole into one command buffer. */
  predicate CommandChars(w: string) {
    (forall k :: 0 <= k < |w| ==> CommandChar(w[k])) && |w| < MaxLenCmdline
  }

  /** A command whose words fit the one argv slot of dsh.c. */
  predicate Command(w: string) {
    CommandChars(w) && |Words(w)| <= 1
  }

  /** The job one command gives: one process for its text, and the given commandinfo. */
  function OneCommand(w: string, bg: bool, info: string): Job {
    Job(-1, [FilledProcess(w)], info, None, None, StdinFileno, StdoutFileno, StderrFileno, bg, false)
  }

  /** A run of command characters is appended to the command one by one. */
  lemma {:induction false} ScanPlain(line: string, pos: nat, e: nat, cmd: string, out: string, job: Job)
    requires pos <= e <= |line|
    requires forall k :: pos <= k < e ==> CommandChar(line[k])
    requires |cmd| + (e - pos) <= MaxLenCmdline - 1
    requires out == cmd + line[pos..e]
    ensures ScanJob(line, Scan(pos, cmd, job, true)) == ScanJob(line, Scan(e, out, job, true))
    decreases e - pos
  {
    if pos < e {
      ScanPlainStep(line, pos, cmd, job);
      assert out == (cmd + [line[pos]]) + line[pos + 1..e];
      ScanPlain(line, pos + 1, e, cmd + [line[pos]], out, job);
    } else {
      assert out == cmd;
    }
  }

  /** The default case of the switch copies one command character. */
  lemma ScanPlainStep(line: string, pos: nat, cmd: string, job: Job)
    requires pos < |line| && CommandChar(line[pos]) && |cmd| < MaxLenCmdline - 1
    ensures ScanJob(line, Scan(pos, cmd, job, true)) == ScanJob(line, Scan(pos + 1, cmd + [line[pos]], job, true))
  {
    assert Step(line, Scan(pos, cmd, job, true)) == Next(Scan(pos + 1, cmd + [line[pos]], job, true));
  }

  /** A command at `pos` is copied whole into the command buffer. */
  lemma ScanCommandText(line: string, pos: nat, e: nat, w: string)
    requires CommandChars(w) && e == pos + |w| && e <= |line| && line[pos..e] == w
    ensures ScanJob(line, Scan(pos, [], InitJob(), true)) == ScanJob(line, Scan(e, w, InitJob(), true))
  {
    forall k | pos <= k < e
      ensures CommandChar(line[k])
    {
      assert line[k] == w[k - pos] && CommandChar(w[k - pos]);
    }
    assert [] + line[pos..e] == w;
    ScanPlain(line, pos, e, [], w, InitJob());
  }

  /** Closing the one process of a command. */
  lemma CloseOne(job: Job, w: string, info: string)
    requires Command(w) && job.procs == [] && job.pgid == -1 && job.ifile == None && job.ofile == None
    requires job.stdin == StdinFileno && job.stdout == StdoutFileno && job.stderr == StderrFileno && !job.notified
    ensures CloseProcess(job, w).Some?
    ensures CloseProcess(job, w).value.(commandinfo := info) == OneCommand(w, job.bg, info)
  {
    assert job.procs + [FilledProcess(w)] == [FilledProcess(w)];
  }

  /** A command at `pos` ended by a newline or `&` is the last job of the line; its
      commandinfo is the cmdline_pos characters from seq_pos. */
  lemma CommandEnd(line: string, pos: nat, q: nat, seqPos: nat, added: seq<Job>, w: string, c: char)
    requires Command(w) && c in "\n&" && seqPos <= pos && q == pos + |w|
    requires q < |line| && line[pos..q] == w && line[q] == c
    ensures ParseFrom(line, pos, seqPos, added) ==
      ParseResult(Parsed, added + [OneCommand(w, c == '&', CopyN(line, seqPos, q))])
  {
    ScanCommandText(line, pos, q, w);
    var s := Scan(q, w, InitJob(), true);
    var job := if c == '&' then InitJob().(bg := true) else InitJob();
    assert ScanJob(line, s) == Ended(s.(job := job), if c == '&' then Background else EndOfLine) by {
      assert Step(line, s) == Stop(Ended(s.(job := job), if c == '&' then Background else EndOfLine));
    }
    CloseOne(job, w, CopyN(line, seqPos, q));
  }

  /** A command at `pos` ended by `;`: its job is linked and the next pass starts after
      the `;`.  The job's commandinfo is copied from just after the `;`, for as many
      characters as the `;` stands from the start of the line. */
  lemma CommandSeq(line: string, pos: nat, q: nat, next: nat, seqPos: nat, added: seq<Job>, w: string)
    requires Command(w) && seqPos <= pos && q == pos + |w| && next == q + 1
    requires q < |line| && line[pos..q] == w && line[q] == ';'
    ensures ParseFrom(line, pos, seqPos, added) ==
      ParseFrom(line, next, next, added + [OneCommand(w, false, CopyN(line, next, q))])
  {
    ScanCommandText(line, pos, q, w);
    var s := Scan(q, w, InitJob(), true);
    assert ScanJob(line, s) == Ended(s, Sequence) by {
      assert Step(line, s) == Stop(Ended(s, Sequence));
    }
    var job := InitJob().(commandinfo := CopyN(line, seqPos, q));
    CloseOne(job, w, CopyN(line, next, q));
  }

  /** Where the pieces of `w`, the character after it and the rest sit. */
  lemma Layout(w: string, c: char, rest: string)
    ensures var line := w + [c] + rest;
      |w| < |line| && line[0..|w|] == w && line[|w|] == c && line[|w| + 1..] == rest
  {
    TmpParserProps.Window([], w, [c] + rest);
    assert w + [c] + rest == w + ([c] + rest);
  }

  /** A line holding one command ended by a newline or `&` links one job with one
      process, whose commandinfo is the command; `&` makes it a background job. */
  lemma CommandLine(w: string, c: char, rest: string)
    requires Command(w) && c in "\n&"
    ensures ParseLine(w + [c] + rest) == ParseResult(Parsed, [OneCommand(w, c == '&', w)])
  {
    var line := w + [c] + rest;
    Layout(w, c, rest);
    CommandEnd(line, 0, |w|, 0, [], w, c);
    forall k | 0 <= k < |w|
      ensures line[k] != Nul
    {
      assert line[k] == w[k];
    }
    CopyNSpan(line, 0, |w|);
  }

  /** The blank-line guard of dsh.c asks for a character that is both a newline and a
      NUL, so it never holds: a line of nothing but spaces links a job, with one
      process that has no arguments. */
  lemma BlankLineLinksJob(w: string, rest: string)
    requires |w| < MaxLenCmdline && forall k :: 0 <= k < |w| ==> IsSpace(w[k]) && w[k] != '\n'
    ensures ParseLine(w + "\n" + rest).added == [OneCommand(w, false, w)]
    ensures OneCommand(w, false, w).procs == [InitProcess()]
  {
    assert AllSpace(w);
    WordsEmptyIffAllSpace(w);
    CommandLine(w, '\n', rest);
  }

  /** Every line links at least one job. */
  lemma AlwaysLinksJob(line: string)
    ensures |ParseLine(line).added| >= 1 && ParseLine(line).outcome != Blank
  {
  }

  /** A `#` is part of a command in dsh.c: `a#b` followed by a newline is one process
      whose only word is `a#b`. */
  lemma HashInCommand(a: string, b: string, rest: string)
    requires Command(a + "#" + b) && NoSpace(a + "#" + b)
    ensures ParseLine(a + "#" + b + "\n" + rest) == ParseResult(Parsed, [OneCommand(a + "#" + b, false, a + "#" + b)])
    ensures FilledProcess(a + "#" + b).argv == [a + "#" + b]
  {
    var w := a + "#" + b;
    CommandLine(w, '\n', rest);
    assert w[|a|] == '#';
    SingleWord(w);
  }

  /** Text without spaces is one word. */
  lemma SingleWord(w: string)
    requires w != [] && NoSpace(w)
    ensures Words(w) == [w]
  {
    var n := RunLength(w);
    assert w[..n] == w && w[n..] == [];
  }

  /** Where the two commands of a `;` line sit. */
  lemma SequenceLayout(a: string, b: string, c: char, rest: string)
    ensures var line := a + ";" + b + [c] + rest;
      |a| + 1 + |b| < |line| && line[0..|a|] == a && line[|a|] == ';' &&
      line[|a| + 1..|a| + 1 + |b|] == b && line[|a| + 1 + |b|] == c
  {
    var line := a + ";" + b + [c] + rest;
    TmpParserProps.Window([], a, ";" + b + [c] + rest);
    assert line == a + ";" + (b + [c] + rest);
    TmpParserProps.Window(a + ";", b, [c] + rest);
  }

  /** Two commands `a` and `b` separated by `;` and ended by a newline or `&` link two
      jobs (SequenceLayout shows that a + ";" + b + [c] + rest is such a line).  The
      first job's commandinfo is not its own text: it is |a| characters copied from
      just after the `;`.  The second job's commandinfo is |a| + 1 + |b| characters
      from just after the `;`: its own text, the character that ends it, and what
      follows, as far as the line goes.  `p` is the position just after the `;`. */
  lemma SequenceLine(line: string, p: nat, e: nat, a: string, b: string, c: char)
    requires Command(a) && Command(b) && c in "\n&" && p == |a| + 1 && e == p + |b|
    requires e < |line| && line[0..|a|] == a && line[|a|] == ';'
    requires line[p..e] == b && line[e] == c
    ensures ParseLine(line) == ParseResult(Parsed, [
        OneCommand(a, false, CopyN(line, p, |a|)),
        OneCommand(b, c == '&', CopyN(line, p, e))])
  {
    SecondCommand(line, p, e, OneCommand(a, false, CopyN(line, p, |a|)), b, c);
    FirstCommandSeq(line, p, a);
  }

  /** CommandSeq for the first command of the line. */
  lemma FirstCommandSeq(line: string, p: nat, a: string)
    requires Command(a) && p == |a| + 1 && |a| < |line| && line[0..|a|] == a && line[|a|] == ';'
    ensures ParseLine(line) == ParseFrom(line, p, p, [OneCommand(a, false, CopyN(line, p, |a|))])
  {
    CommandSeq(line, 0, |a|, p, 0, [], a);
    assert [] + [OneCommand(a, false, CopyN(line, p, |a|))] == [OneCommand(a, false, CopyN(line, p, |a|))];
  }

  /** CommandEnd for a command that follows one linked job. */
  lemma SecondCommand(line: string, p: nat, e: nat, first: Job, b: string, c: char)
    requires Command(b) && c in "\n&" && e == p + |b|
    requires e < |line| && line[p..e] == b && line[e] == c
    ensures ParseFrom(line, p, p, [first]) ==
      ParseResult(Parsed, [first, OneCommand(b, c == '&', CopyN(line, p, e))])
  {
    CommandEnd(line, p, e, p, [first], b, c);
    assert [first] + [OneCommand(b, c == '&', CopyN(line, p, e))] == [first, OneCommand(b, c == '&', CopyN(line, p, e))];
  }

  /** When the second command of a `;` line is at least as long as the first, the
      first job's commandinfo is the start of the second command. */
  lemma SequenceInfo(a: string, b: string, c: char, rest: string)
    requires Command(a) && Command(b) && |a| <= |b|
    ensures CopyN(a + ";" + b + [c] + rest, |a| + 1, |a|) == b[..|a|]
  {
    var line := a + ";" + b + [c] + rest;
    SequenceLayout(a, b, c, rest);
    forall k | |a| + 1 <= k < |a| + 1 + |a|
      ensures line[k] != Nul
    {
      assert line[k] == b[k - |a| - 1] && CommandChar(b[k - |a| - 1]);
    }
    CopyNSpan(line, |a| + 1, |a|);
    assert line[|a| + 1..|a| + 1 + |a|] == b[..|a|];
  }

  /** A command of two or more words does not fit the one argv slot: readprocessinfo
      would write past it.  The model stops there, with the job linked and empty. */
  lemma TwoWords(w: string, rest: string)
    requires CommandChars(w) && |Words(w)| >= 2
    ensures ParseLine(w + "\n" + rest) == ParseResult(Rejected(ArgvOverflow), [InitJob()])
  {
    var line := w + "\n" + rest;
    Layout(w, '\n', rest);
    ScanCommandText(line, 0, |w|, w);
    var s := Scan(|w|, w, InitJob(), true);
    assert ScanJob(line, s) == Ended(s, EndOfLine) by {
      assert Step(line, s) == Stop(Ended(s, EndOfLine));
    }
    assert [] + [InitJob()] == [InitJob()];
  }

  /** Text with no `#` and no `|`. */
  predicate NoHashNoBar(s: string) {
    forall k :: 0 <= k < |s| ==> s[k] != '#' && s[k] != '|'
  }

  /** A word after a redirection's file name makes dsh.c give up on the line too; the
      job stays linked with the name stored and no process. */
  lemma RedirectThenWord(a: string, c: char, sp: string, name: string, rest: string)
    requires TmpParserProps.Simple(a) && c in "<>" && AllSpace(sp) && TmpParserProps.FileWord(name)
    requires |name| <= MaxLenFilename && NoHashNoBar(name) && NoHashNoBar(rest)
    requires rest != [] && !Special(rest[0]) && !IsSpace(rest[0])
    ensures ParseLine(a + [c] + sp + name + " " + rest) ==
      ParseResult(Rejected(CannotFathom), [TmpParserProps.Redirect(InitJob(), c, name)])
  {
    var line := a + [c] + sp + name + " " + rest;
    var q, b, e := |a|, |a| + 1 + |sp|, |a| + 1 + |sp| + |name|;
    assert line == a + [c] + sp + name + (" " + rest);
    TmpParserProps.RedirectLayout(a, c, sp, name, " " + rest, q, b, e);
    NoHashNoBarLine(a, c, sp, name, " " + rest);
    ScansAgree(line, Scan(0, [], InitJob(), true));
    TmpParserProps.ScanRedirectLine(line, a, c, name, q, b, e);
    assert line[e] == ' ' && line[e + 1] == rest[0];
    assert SkipBlanks(line, e) == e + 1;
    var r := TmpParserProps.Redirect(InitJob(), c, name);
    assert TmpParser.Step(line, Scan(e + 1, a, r, false)) == Stop(Failed(CannotFathom, r));
    assert [] + [r] == [r];
  }

  /** A file name longer than MaxLenFilename makes dsh.c give up on the line, with the
      part of the name that was copied stored in the linked job. */
  lemma RedirectNameTooLong(a: string, c: char, sp: string, name: string)
    requires TmpParserProps.Simple(a) && c in "<>" && AllSpace(sp) && TmpParserProps.FileWord(name)
    requires |name| > MaxLenFilename && NoHashNoBar(name)
    ensures ParseLine(a + [c] + sp + name + "\n") ==
      ParseResult(Rejected(FileNameTooLong), [TmpParserProps.SetFile(InitJob(), c, name[..MaxLenFilename])])
  {
    var line := a + [c] + sp + name + "\n";
    var q, b, e := |a|, |a| + 1 + |sp|, |a| + 1 + |sp| + |name|;
    TmpParserProps.RedirectLayout(a, c, sp, name, "\n", q, b, e);
    NoHashNoBarLine(a, c, sp, name, "\n");
    ScansAgree(line, Scan(0, [], InitJob(), true));
    TmpParserProps.ScanRedirectLine(line, a, c, name, q, b, e);
    var j := TmpParserProps.SetFile(InitJob(), c, name[..MaxLenFilename]);
    assert [] + [j] == [j];
  }

  /** A redirected command built from pieces without `#` or `|` has none: whitespace
      is neither. */
  lemma NoHashNoBarLine(a: string, c: char, sp: string, name: string, tail: string)
    requires TmpParserProps.Simple(a) && c in "<>" && AllSpace(sp) && NoHashNoBar(name) && NoHashNoBar(tail)
    ensures NoHashNoBar(a + [c] + sp + name + tail)
  {
    var line := a + [c] + sp + name + tail;
    forall k | 0 <= k < |line|
      ensures line[k] != '#' && line[k] != '|'
    {
      if k < |a| {
        assert line[k] == a[k];
      } else if k == |a| {
        assert line[k] == c;
      } else if k < |a| + 1 + |sp| {
        assert line[k] == sp[k - |a| - 1];
      } else if k < |a| + 1 + |sp| + |name| {
        assert line[k] == name[k - |a| - 1 - |sp|];
      } else {
        assert line[k] == tail[k - |a| - 1 - |sp| - |name|];
      }
    }
  }
}
