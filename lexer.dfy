/** Character-level pieces shared by the two command-line parsers: the C locale's
    isspace, the zero-filled line buffer, the spans the scanner skips or copies, the
    whitespace splitting done by readprocessinfo, and strncpy. */
module Lexer {

  import opened JobModel

  const Nul: char := '\0'

  /** isspace in the C locale: space, tab, newline, vertical tab, form feed, carriage return. */
  predicate IsSpace(c: char) {
    c == ' ' || c == '\t' || c == '\n' || c == '\U{0B}' || c == '\U{0C}' || c == '\r'
  }

  /** Index i of a buffer that holds s followed by NUL bytes. */
  function At(s: string, i: nat): char {
    if i < |s| then s[i] else Nul
  }

  /** Characters the main switch of readcmdline handles itself, or that end the scan. */
  predicate Special(c: char) {
    c == '<' || c == '>' || c == '|' || c == '&' || c == ';' || c == '#' || c == '\n' || c == Nul
  }

  /** Text made only of characters the scanner copies into a command. */
  predicate Plain(s: string) {
    forall k :: 0 <= k < |s| ==> !Special(s[k])
  }

  predicate NoSpace(w: string) {
    forall k :: 0 <= k < |w| ==> !IsSpace(w[k])
  }

  predicate AllSpace(s: string) {
    forall k :: 0 <= k < |s| ==> IsSpace(s[k])
  }

  /** Where a `while (isspace(buf[pos])) ++pos;` loop started at i stops. */
  function SkipSpaces(s: string, i: nat): (r: nat)
    ensures i <= r
    ensures i <= |s| ==> r <= |s|
    ensures !IsSpace(At(s, r))
    ensures forall k :: i <= k < r ==> k < |s| && IsSpace(s[k])
    decreases |s| - i
  {
    if IsSpace(At(s, i)) then SkipSpaces(s, i + 1) else i
  }

  /** Where the redirect loop `while (isspace(..)) { if (..== '\n') break; ++pos; }`
      started at i stops: at the first character that is not a space, or at a newline. */
  function SkipBlanks(s: string, i: nat): (r: nat)
    ensures i <= r
    ensures i <= |s| ==> r <= |s|
    ensures !IsSpace(At(s, r)) || At(s, r) == '\n'
    ensures forall k :: i <= k < r ==> k < |s| && IsSpace(s[k]) && s[k] != '\n'
    decreases |s| - i
  {
    if IsSpace(At(s, i)) && At(s, i) != '\n' then SkipBlanks(s, i + 1) else i
  }

  /** The end of the word that starts at i: the first NUL or space at or after i. */
  function WordEnd(s: string, i: nat): (r: nat)
    ensures i <= r
    ensures i <= |s| ==> r <= |s|
    ensures At(s, r) == Nul || IsSpace(At(s, r))
    ensures forall k :: i <= k < r ==> k < |s| && s[k] != Nul && !IsSpace(s[k])
    decreases |s| - i
  {
    if At(s, i) != Nul && !IsSpace(At(s, i)) then WordEnd(s, i + 1) else i
  }

  /** The string that strncpy(dst, s + from, n) leaves in dst: at most n characters of s
      from `from` on, stopping before the first NUL. */
  function CopyN(s: string, from: nat, n: nat): (r: string)
    ensures |r| <= n
    ensures forall k :: 0 <= k < |r| ==> from + k < |s| && r[k] == s[from + k] && r[k] != Nul
    ensures |r| < n ==> At(s, from + |r|) == Nul
    decreases n
  {
    if n == 0 || At(s, from) == Nul then [] else [At(s, from)] + CopyN(s, from + 1, n - 1)
  }

  /** strncpy copies exactly the span it is given when that span holds no NUL. */
  lemma {:induction false} CopyNSpan(s: string, from: nat, n: nat)
    decreases n
    requires from + n <= |s|
    requires forall k :: from <= k < from + n ==> s[k] != Nul
    ensures CopyN(s, from, n) == s[from..from + n]
  {
    if n > 0 {
      CopyNSpan(s, from + 1, n - 1);
      assert [s[from]] + s[from + 1..from + n] == s[from..from + n];
    }
  }

  /** Length of the longest prefix of s without spaces. */
  function RunLength(s: string): (n: nat)
    ensures n <= |s|
    ensures forall k :: 0 <= k < n ==> !IsSpace(s[k])
    ensures n == |s| || IsSpace(s[n])
  {
    if s == [] || IsSpace(s[0]) then 0 else 1 + RunLength(s[1..])
  }

  /** The maximal runs of non-space characters of s, in order. */
  function Words(s: string): (ws: seq<string>)
    ensures forall i :: 0 <= i < |ws| ==> ws[i] != [] && NoSpace(ws[i])
    decreases |s|
  {
    if s == [] then []
    else if IsSpace(s[0]) then Words(s[1..])
    else
      var n := RunLength(s);
      [s[..n]] + Words(s[n..])
  }

  /** Words joined with single spaces. */
  function Join(ws: seq<string>): string {
    if ws == [] then []
    else if |ws| == 1 then ws[0]
    else ws[0] + [' '] + Join(ws[1..])
  }

  /** s with leading and trailing whitespace removed and every inner run of
      whitespace replaced by one space, computed character by character: `started`
      says whether a character has been emitted, `pending` whether a space is owed
      before the next one. */
  function Squeeze(s: string, pending: bool, started: bool): string
    decreases |s|
  {
    if s == [] then []
    else if IsSpace(s[0]) then Squeeze(s[1..], started, started)
    else (if pending then [' '] else []) + [s[0]] + Squeeze(s[1..], false, true)
  }

  function Collapse(s: string): string {
    Squeeze(s, false, false)
  }

  /** Leading spaces do not change the words. */
  lemma {:induction false} WordsSkipSpaces(s: string, k: nat)
    requires k <= |s|
    requires AllSpace(s[..k])
    ensures Words(s) == Words(s[k..])
    decreases k
  {
    if k > 0 {
      assert IsSpace(s[..k][0]);
      assert s[1..][..k - 1] == s[1..k];
      WordsSkipSpaces(s[1..], k - 1);
      assert s[1..][k - 1..] == s[k..];
    }
  }

  /** A text has no words exactly when it is all whitespace. */
  lemma {:induction false} WordsEmptyIffAllSpace(s: string)
    ensures Words(s) == [] <==> AllSpace(s)
    decreases |s|
  {
    if s != [] && IsSpace(s[0]) {
      WordsEmptyIffAllSpace(s[1..]);
      if AllSpace(s[1..]) {
        forall k | 0 <= k < |s| ensures IsSpace(s[k]) {
          if k > 0 { assert s[k] == s[1..][k - 1]; }
        }
      }
    }
  }

  /** Splitting off the first word of a text that starts inside a word. */
  lemma WordsAfterFirst(s: string)
    requires |s| >= 2 && !IsSpace(s[0]) && !IsSpace(s[1])
    ensures RunLength(s[1..]) == RunLength(s) - 1
    ensures Words(s[1..]) == [s[1..RunLength(s)]] + Words(s[RunLength(s)..])
  {
    var t := s[1..];
    var m := RunLength(t);
    assert RunLength(s) == 1 + m;
    WordsAtWord(t, m);
    assert t[..m] == s[1..1 + m];
    assert t[m..] == s[1 + m..];
  }

  /** Words of a text that starts with a word. */
  lemma WordsAtWord(t: string, m: nat)
    requires t != [] && !IsSpace(t[0]) && m == RunLength(t)
    ensures Words(t) == [t[..m]] + Words(t[m..])
  {
  }

  /** What Join puts after the first word: nothing, or a space and the rest joined. */
  function JoinTail(ws: seq<string>): string {
    if ws == [] then [] else [' '] + Join(ws)
  }

  lemma JoinCons(w: string, ws: seq<string>)
    ensures Join([w] + ws) == w + JoinTail(ws)
  {
    if ws != [] {
      assert ([w] + ws)[1..] == ws;
    }
  }

  /** Squeezing after a character has been emitted. */
  lemma {:induction false} SqueezeStarted(s: string, pending: bool)
    ensures Squeeze(s, pending, true) ==
      if Words(s) == [] then []
      else (if pending || IsSpace(s[0]) then [' '] else []) + Join(Words(s))
    decreases |s|
  {
    if s == [] {
    } else if IsSpace(s[0]) {
      SqueezeStarted(s[1..], true);
    } else {
      SqueezeStarted(s[1..], false);
      SqueezeWordStart(s, pending);
    }
  }

  /** The step of SqueezeStarted at a character that is not a space. */
  lemma SqueezeWordStart(s: string, pending: bool)
    requires s != [] && !IsSpace(s[0])
    requires Squeeze(s[1..], false, true) ==
      if Words(s[1..]) == [] then []
      else (if IsSpace(s[1]) then [' '] else []) + Join(Words(s[1..]))
    ensures Squeeze(s, pending, true) == (if pending then [' '] else []) + Join(Words(s))
  {
    var lead: string := if pending then [' '] else [];
    var tail := Squeeze(s[1..], false, true);
    assert Squeeze(s, pending, true) == lead + [s[0]] + tail;
    if RunLength(s) == 1 {
      SqueezeOneLetterWord(s);
    } else {
      assert !IsSpace(s[1]);
      WordsAfterFirst(s);
      assert Words(s[1..]) != [];
      SqueezeLongerWord(s);
    }
    AppendAssoc(lead, [s[0]], tail);
  }

  lemma SqueezeOneLetterWord(s: string)
    requires s != [] && !IsSpace(s[0]) && RunLength(s) == 1
    requires Squeeze(s[1..], false, true) ==
      if Words(s[1..]) == [] then []
      else (if IsSpace(s[1]) then [' '] else []) + Join(Words(s[1..]))
    ensures [s[0]] + Squeeze(s[1..], false, true) == Join(Words(s))
  {
    var rest := Words(s[1..]);
    assert s[..1] == [s[0]];
    assert Words(s) == [[s[0]]] + rest;
    JoinCons([s[0]], rest);
    if rest != [] {
      WordsEmptyIffAllSpace(s[1..]);
      assert |s| > 1 && IsSpace(s[1]);
    }
    assert Squeeze(s[1..], false, true) == JoinTail(rest);
  }

  lemma SqueezeLongerWord(s: string)
    requires |s| >= 2 && !IsSpace(s[0]) && RunLength(s) > 1
    requires Squeeze(s[1..], false, true) == Join(Words(s[1..]))
    ensures [s[0]] + Squeeze(s[1..], false, true) == Join(Words(s))
  {
    var n := RunLength(s);
    var rest := Words(s[n..]);
    assert Words(s) == [s[..n]] + rest;
    JoinCons(s[..n], rest);
    WordsAfterFirst(s);
    JoinCons(s[1..n], rest);
    HeadThenSlice(s, n, JoinTail(rest));
  }

  lemma AppendAssoc<T>(a: seq<T>, b: seq<T>, c: seq<T>)
    ensures (a + b) + c == a + (b + c)
  {
  }

  /** Context-free sequence fact: the first character followed by s[1..n] is s[..n]. */
  lemma HeadThenSlice(s: string, n: nat, tail: string)
    requires 1 <= n <= |s|
    ensures [s[0]] + (s[1..n] + tail) == s[..n] + tail
  {
    assert [s[0]] + s[1..n] == s[..n];
  }

  /** readprocessinfo's arguments, joined with single spaces, give the trimmed,
      space-collapsed command. */
  lemma {:induction false} JoinWordsIsCollapse(s: string)
    ensures Join(Words(s)) == Collapse(s)
    decreases |s|
  {
    if s == [] {
    } else if IsSpace(s[0]) {
      JoinWordsIsCollapse(s[1..]);
    } else {
      SqueezeStarted(s, false);
      SqueezeStarted(s[1..], false);
      assert Squeeze(s, false, false) == Squeeze(s, false, true);
    }
  }

  /** The `while (isspace(..)) ++pos;` loop of readcmdline. */
  method SkipSpacesFrom(s: string, i: nat) returns (r: nat)
    ensures r == SkipSpaces(s, i)
  {
    r := i;
    while IsSpace(At(s, r))
      invariant i <= r
      invariant SkipSpaces(s, r) == SkipSpaces(s, i)
      decreases |s| - r
    {
      r := r + 1;
    }
  }

  /** The loop after a redirect word: skip spaces but stop at a newline. */
  method SkipBlanksFrom(s: string, i: nat) returns (r: nat)
    ensures r == SkipBlanks(s, i)
  {
    r := i;
    while IsSpace(At(s, r)) && At(s, r) != '\n'
      invariant i <= r
      invariant SkipBlanks(s, r) == SkipBlanks(s, i)
      decreases |s| - r
    {
      r := r + 1;
    }
  }

  /** A word run ends exactly where the first NUL or space after its start is. */
  lemma {:induction false} WordEndUnique(s: string, b: nat, e: nat)
    requires b <= e
    requires forall k :: b <= k < e ==> At(s, k) != Nul && !IsSpace(At(s, k))
    requires At(s, e) == Nul || IsSpace(At(s, e))
    ensures WordEnd(s, b) == e
    decreases e - b
  {
    if b < e {
      assert At(s, b) != Nul && !IsSpace(At(s, b));
      WordEndUnique(s, b + 1, e);
    }
  }

  /** The skip of spaces started at i stops at b when everything before b is a space
      and b is not. */
  lemma {:induction false} SkipSpacesUnique(s: string, i: nat, b: nat)
    requires i <= b <= |s|
    requires forall k :: i <= k < b ==> IsSpace(s[k])
    requires !IsSpace(At(s, b))
    ensures SkipSpaces(s, i) == b
    decreases b - i
  {
    if i < b {
      assert IsSpace(At(s, i));
      SkipSpacesUnique(s, i + 1, b);
    }
  }

  /** The file-name loop of the `<` and `>` cases: copy the run of characters that are
      neither NUL nor spaces into a MaxLenFilename-byte buffer, giving up when the
      buffer index reaches MaxLenFilename with more of the run to copy.  `fits` is false
      on that path, where `name` is what the buffer holds; `e` is where the copy stopped. */
  method ReadFileName(s: string, b: nat) returns (name: string, fits: bool, e: nat)
    requires b <= |s|
    ensures fits <==> WordEnd(s, b) - b <= MaxLenFilename
    ensures fits ==> e == WordEnd(s, b) && name == s[b..e]
    ensures !fits ==> e == b + MaxLenFilename <= |s| && name == s[b..e]
    ensures |name| <= MaxLenFilename
  {
    var seek := 0;
    name := [];
    e := b;
    while At(s, e) != Nul && !IsSpace(At(s, e))
      invariant b <= e <= |s|
      invariant seek == e - b == |name| <= MaxLenFilename
      invariant name == s[b..e]
      invariant forall k :: b <= k < e ==> s[k] != Nul && !IsSpace(s[k])
      invariant WordEnd(s, e) == WordEnd(s, b)
      decreases |s| - e
    {
      if MaxLenFilename == seek {
        return name, false, e;
      }
      name := name + [s[e]];
      seek := seek + 1;
      e := e + 1;
    }
    assert forall k :: b <= k < e ==> At(s, k) == s[k];
    WordEndUnique(s, b, e);
    return name, true, e;
  }

  /** How the scan of one job ended: at the end of the line, at `&`, at `;` or at `#`. */
  datatype Ender = EndOfLine | Background | Sequence | Comment

  /** The error paths of readcmdline that call invokefree, and the argv overflow of
      readprocessinfo, which is undefined behaviour in C and ends the model's scan. */
  datatype ParseError = CannotFathom | CmdTooLong | FileNameTooLong | ArgvOverflow

  /** The locals of one job's scan: cmdline_pos, the text collected in cmd, the job
      being filled and valid_input. */
  datatype Scan = Scan(pos: nat, cmd: string, job: Job, valid: bool)

  /** How a job's scan ends: normally, with the state it reached, or on an error path,
      with the job as it stood. */
  datatype ScanResult = Ended(last: Scan, ender: Ender) | Failed(error: ParseError, job: Job)

  /** One pass of the scan loop: go on with a new state, or stop. */
  datatype StepResult = Next(next: Scan) | Stop(result: ScanResult)

  /** How readcmdline ends: at a blank rest of line (it returns false), after the last
      job, or on an error path (dsh-tmp.c returns invokefree's result, which is true). */
  datatype Outcome = Blank | Parsed | Rejected(error: ParseError)

  /** The outcome and the jobs linked onto the end of the job list, in order. */
  datatype ParseResult = ParseResult(outcome: Outcome, added: seq<Job>)

  /** One pass of the outer loop of readcmdline: the job it links, if any, and either
      the value readcmdline returns or where the next command starts. */
  datatype Pass = Finished(job: Option<Job>, returned: bool) | Continue(job: Option<Job>, next: nat)

  /** The character a scan stopped at, for each way of stopping. */
  predicate EndsAt(line: string, pos: nat, ender: Ender) {
    match ender
    case EndOfLine => At(line, pos) == '\n' || At(line, pos) == Nul
    case Background => At(line, pos) == '&'
    case Sequence => At(line, pos) == ';'
    case Comment => At(line, pos) == '#'
  }
}
