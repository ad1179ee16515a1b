# dsh job registry and command-line parser, in Dafny

This project models the sequential core of two versions of a small job-control shell:
`dsh-tmp.c` and the older `dsh.c`. Both files work on the same records, the job and
process structures declared in their header `dsh.h`. A job list is a singly-linked list
of jobs starting at `first_job`, and each job owns a singly-linked pipeline of processes.
Both records are modelled once, in `JobModel`:

- a `Job` and a `Process` are datatypes;
- a list is a `seq` in list order;
- a pointer to a node is that node's position in the sequence.

The modules are:

- `JobModel` (`job_model.dfy`): the records and the walks both files share:
  - `job_is_stopped` and `job_is_completed`;
  - `find_job`, `find_last_job` and `find_last_process`;
  - `init_job`.
- `Lexer` (`lexer.dfy`): character-level pieces used by both parsers:
  - the C locale's `isspace`;
  - the line buffer, read as NUL from the end of the stored line on;
  - the whitespace loops;
  - the file-name copy loop of the redirection cases;
  - `strncpy`;
  - the whitespace splitting done by `readprocessinfo`.
- `TmpParser` (`dsh_tmp_parse.dfy`): the parser of `dsh-tmp.c`:
  - `init_process` and `readprocessinfo`;
  - the scanner of `readcmdline`, as the functions `Step`, `ScanJob` and `ParseFrom`, and as methods with loops proved equal to them.
- `TmpParserProps` (`dsh_tmp_parse_props.dfy`): what that `readcmdline` makes of whole lines:
  - pipelines;
  - `&`, `;` and `#`;
  - redirections;
  - blank lines;
  - the two length limits.
- `DshTmp` (`dsh_tmp.dfy`): the registry of `dsh-tmp.c`. The class `Shell` holds `first_job` as `jobs` and the 20-slot `job_array` as an `array<int>`. Its methods are:
  - `find_lowest_index` and `find_prev_job`;
  - `remove_and_free` and `mark_process_status`;
  - the `wait_for_job` loop;
  - `list_jobs`;
  - `readcmdline`.

  Each method is proved against a function: `Unlinked`, `Mark`, `WaitFrom`, `ListJobsSpec` and `ParseLine`. The properties are stated as lemmas about those functions.
- `DshParser` (`dsh_parse.dfy`): the parser of `dsh.c`:
  - `init_process` with one argv slot;
  - `readprocessinfo` without the NULL terminator;
  - a scanner without a `#` case;
  - an outer loop with no working blank-line guard and a different `commandinfo` length.
- `DshParserProps` (`dsh_parse_props.dfy`): what the `dsh.c` parser makes of whole lines, and where it parts from `dsh-tmp.c`.
- `Dsh` (`dsh.dfy`): the job list of `dsh.c` and its `readcmdline` method.

`MAX_LEN_CMDLINE`, `MAX_LEN_FILENAME`, `MAX_ARGS`, `INPUT_FD` and `OUTPUT_FD` are positive
constants whose values are not fixed.

`waitpid` is replaced by a supplied sequence of reaps. Each reap is a pid and a status:
`Stopped`, `Exited` or `Signaled(n)`. Running out of reaps plays the part of `waitpid`
failing.

The line read by `fgets` is a parameter. From its end on, the buffer reads as NUL: the
terminator `fgets` writes, and then the zero fill of the buffer `calloc` gives in
`dsh-tmp.c`.

`dsh-tmp.c` returns `invokefree(...)` on every error path, and `invokefree` returns the
result of `free_job`. The model reads that as: `readcmdline` returns true on those paths.
A job linked before the error stays linked.

Behaviour of note, modelled as written and shown by lemmas:

- `remove_and_free` on a job other than the head unlinks the job after it, not the job
  itself (`RemoveKeepsTarget`). On the only job it leaves the freed head linked.
  `ListJobsLosesSuccessor` follows one `list_jobs` call on three jobs whose middle one has
  completed:
  1. the middle job's successor is unlinked;
  2. `find_job` for the successor's slot then returns NULL;
  3. the shell dereferences that NULL.
- In `wait_for_job` the test for a completed job adds nothing to the test for a stopped job
  (`CompletedImpliesStopped`). The loop always takes at least one reap (`WaitTakesOne`).
- In `dsh-tmp.c`:
  - a `;` followed only by whitespace links the job before it, yet `readcmdline` returns
    false, as it does for a blank line (`TrailingSemicolon`);
  - the check that a command is too long never fires on a line `fgets` stored
    (`LineNeverTooLong`);
  - a file name of exactly `MAX_LEN_FILENAME` characters is accepted, and its terminator
    is written one byte past the buffer.
- In `dsh.c`:
  - the blank-line guard asks for a character that equals both `'\n'` and `'\0'`, so a
    blank line still links a job, holding one process with no arguments
    (`BlankLineLinksJob`, `AlwaysLinksJob`);
  - `commandinfo` is copied as `cmdline_pos` characters from `seq_pos`. The copy after a
    `;` starts just after the `;`, so the first job of `a;b` gets the start of `b` as its
    text, and the last job's text runs on past its own end (`SequenceLine`,
    `SequenceInfo`);
  - `argv` has room for one pointer, so a command of two words would overflow it
    (`TwoWords`).

## Model

| member | source | states |
|---|---|---|
| JobModel.CompletedImpliesStopped | dsh.c:41-58 | a job whose every process completed also counts as stopped |
| JobModel.EmptyPipelineIsStoppedAndCompleted | dsh-tmp.c:118-135 | a job with no processes is both stopped and completed |
| JobModel.InitJob | dsh.c:179-193 | a fresh job has pgid -1, no processes, descriptors 0/1/2, no ifile/ofile, is not background and not notified; it is vacuously stopped and completed |
| JobModel.JobIsStopped | dsh-tmp.c:118-125 | the pipeline walk returns true iff every process has completed or stopped |
| JobModel.JobIsCompleted | dsh-tmp.c:128-135 | the pipeline walk returns true iff every process has completed |
| JobModel.FirstWithPgid | dsh-tmp.c:78-85 | the position of a job with the pgid with none before it, or None iff no job has the pgid |
| JobModel.FindJob | dsh.c:31-38 | the list walk returns the first job with the pgid, or None iff there is none |
| JobModel.FindLastJob | dsh-tmp.c:138-144 | None iff the list is empty, otherwise the last position |
| JobModel.FindLastProcess | dsh.c:71-78 | None iff the pipeline is empty, otherwise the last process |
| Lexer.SkipSpaces | dsh-tmp.c:459 | the skip stops at the first non-space at or after i, having passed only spaces |
| Lexer.SkipSpacesFrom | dsh-tmp.c:492 | the loop stops where SkipSpaces says |
| Lexer.SkipSpacesUnique | dsh-tmp.c:491 | a run of spaces from i up to a non-space at b is exactly what the skip passes: it stops at b |
| Lexer.SkipBlanks | dsh-tmp.c:501-505 | the skip after a file name passes only spaces other than newline, and stops at a non-space or a newline |
| Lexer.SkipBlanksFrom | dsh-tmp.c:523-527 | the loop stops where SkipBlanks says |
| Lexer.WordEnd | dsh-tmp.c:386 | the word starting at i ends at the first NUL or space, with no NUL or space before it |
| Lexer.WordEndUnique | dsh-tmp.c:494 | any position preceded by a run of word characters and holding a NUL or space is that end |
| Lexer.ReadFileName | dsh-tmp.c:493-499 | the name is copied whole iff it has at most MAX_LEN_FILENAME characters; otherwise the copy stops with MAX_LEN_FILENAME characters in the buffer |
| Lexer.CopyN | dsh-tmp.c:561 | strncpy leaves at most n characters, each equal to the source's, stopping only at a NUL |
| Lexer.CopyNSpan | dsh-tmp.c:596 | a span with no NUL is copied exactly |
| Lexer.Words | dsh-tmp.c:384-391 | every word is a non-empty run with no whitespace |
| Lexer.WordsEmptyIffAllSpace | dsh-tmp.c:381-382 | a command has no words iff it is all whitespace, so readprocessinfo leaves argc at 0 exactly then |
| Lexer.WordsSkipSpaces | dsh-tmp.c:381 | leading whitespace does not change the words |
| Lexer.JoinWordsIsCollapse | dsh-tmp.c:384-391 | the words joined with single spaces are the trimmed, space-collapsed command |
| TmpParser.InitProcess | dsh-tmp.c:363-372 | a fresh process has pid -1, no status, argc 0, is neither completed nor stopped, and has MAX_ARGS zeroed argv slots |
| TmpParser.ReadWord | dsh-tmp.c:386 | the copy loop stops at the end of the word and copies exactly the word |
| TmpParser.NextWord | dsh-tmp.c:386-390 | the words of the rest are this word followed by the words after the spaces that follow it |
| TmpParser.ReadProcessInfo | dsh-tmp.c:374-395 | argv is the whitespace-separated words in order, followed by a NULL; an all-whitespace command leaves the process unchanged; joining argv gives the collapsed command; fewer than MAX_ARGS words are required |
| TmpParser.Step | dsh-tmp.c:485-576 | a case either moves forward within the line or stops; a normal stop is at the character that ends the job |
| TmpParser.ScanJob | dsh-tmp.c:483-579 | a job's scan that ends normally stops at a newline, NUL, `&`, `;` or `#` at or after its start |
| TmpParser.RedirectCase | dsh-tmp.c:487-529 | the `<` and `>` cases compute exactly Step |
| TmpParser.PipeCase | dsh-tmp.c:531-549 | the `|` case computes exactly Step |
| TmpParser.ScanCommand | dsh-tmp.c:483-579 | the switch loop computes ScanJob from a fresh job |
| TmpParser.ParseFrom | dsh-tmp.c:456-601 | readcmdline only appends jobs: the jobs linked before are kept as a prefix |
| TmpParserProps.ScanPlain | dsh-tmp.c:569-575 | characters the switch does not handle are collected into the command one by one |
| TmpParserProps.ScanBar | dsh-tmp.c:531-549 | a `\|` closes a process for the collected words and starts an empty command |
| TmpParserProps.FillAppend | dsh-tmp.c:538-544 | each closed process is appended at the end of the pipeline |
| TmpParserProps.ScanPipeline | dsh-tmp.c:531-567 | the segments of a pipeline are scanned in turn, k bars closing k processes in order, and the scan stops at the `\n`, `&`, `;` or `#` after the last segment with that segment's text still pending; `&` sets bg |
| TmpParserProps.ScanPipelineTo | dsh-tmp.c:551-567 | a pipeline scans to the `\n`, `&`, `;` or `#` after it, and `&` sets bg |
| TmpParserProps.ClosePipeline | dsh-tmp.c:580-594 | closing the last segment gives one process per segment: k bars give k+1 processes |
| TmpParserProps.PipelineText | dsh-tmp.c:596 | a pipeline's commandinfo is its whole text |
| TmpParserProps.ParsePipelineEnd | dsh-tmp.c:580-598 | a pipeline ended by a newline, `&` or `#` is the last job linked |
| TmpParserProps.ParsePipelineSeq | dsh-tmp.c:559-600 | a pipeline ended by `;` is linked and the parse goes on after the `;` |
| TmpParserProps.PipelineLine | dsh-tmp.c:434-603 | a one-pipeline line links one job with a process per segment and its text; `&` makes it background; `#` ends the line |
| TmpParserProps.SequenceLine | dsh-tmp.c:559-600 | a line `p1;p2` gives exactly two jobs, in order, each with its own processes, its own text, and bg only for the second when it ends in `&` |
| TmpParserProps.TrailingSemicolon | dsh-tmp.c:459-461 | a `;` followed only by whitespace links the job before it, yet readcmdline returns false |
| TmpParserProps.NoJobIffBlank | dsh-tmp.c:459-461 | no job is linked iff the line is blank after its leading whitespace, or stdin is at end of file; readcmdline then returns false |
| TmpParserProps.ScanRedirect | dsh-tmp.c:487-529 | after `<`/`>` and any spaces, a name of at most MAX_LEN_FILENAME characters is stored as ifile/ofile with the input/output descriptor set and the scan goes on after the blanks that follow, with the command marked invalid; a longer name fails the scan with its first MAX_LEN_FILENAME characters stored |
| TmpParserProps.RedirectLine | dsh-tmp.c:487-529 | `a<name` (or `a>name`), with any spaces before the name, links one job with one process for `a`, the name stored, INPUT_FD/OUTPUT_FD set, and commandinfo the whole text |
| TmpParserProps.RedirectNameTooLong | dsh-tmp.c:491-496 | a file name longer than MAX_LEN_FILENAME, after any spaces, rejects the line, which still returns true, keeping the partly filled job linked |
| TmpParserProps.RedirectThenWord | dsh-tmp.c:569-571 | a plain character after a redirect word (with any spaces before the name), with no `\|` in between, rejects the line |
| TmpParserProps.RedirectCommandText | dsh-tmp.c:596 | a redirected command's commandinfo runs to the end of the name, spaces before it included |
| TmpParserProps.StepCommandGrowth | dsh-tmp.c:572-574 | no case adds more characters to the command than the scan passes |
| TmpParserProps.ScanNeverTooLong | dsh-tmp.c:572-573 | on a line shorter than MAX_LEN_CMDLINE, no scan fails for length |
| TmpParserProps.ParseNeverTooLong | dsh-tmp.c:572-573 | on such a line, no pass of readcmdline fails for length |
| TmpParserProps.LineNeverTooLong | dsh-tmp.c:441 | a line fgets stored, of at most MAX_LEN_CMDLINE-1 characters, is never rejected for length |
| TmpParserProps.LongCommand | dsh-tmp.c:572-573 | a command that reaches MAX_LEN_CMDLINE-1 characters with more to copy is rejected |
| DshTmp.Unlinked | dsh-tmp.c:49-65 | remove_and_free either leaves the list as it is or takes out exactly one job; on a one-job list it takes out nothing; it never adds a job |
| DshTmp.RemoveHead | dsh-tmp.c:51-57 | removing the head of two or more jobs leaves the rest |
| DshTmp.RemoveKeepsTarget | dsh-tmp.c:59-64 | removing a job other than the head keeps it and every job before it; its successor is removed, if there is one |
| DshTmp.FirstWithPid | dsh-tmp.c:93-95 | the first process with the pid, in job order and then pipeline order, or None iff no process has it |
| DshTmp.FirstProcWithPid | dsh-tmp.c:94-95 | the first process of a pipeline with the pid, or None iff none has it |
| DshTmp.Reaped | dsh-tmp.c:96-102 | the status is stored; a stop sets stopped and anything else sets completed; the other flag is unchanged |
| DshTmp.SetProc | dsh-tmp.c:95-99 | the update touches exactly one process of the pipeline |
| DshTmp.Mark | dsh-tmp.c:87-116 | marking keeps the number of jobs |
| DshTmp.MarkSucceedsIff | dsh-tmp.c:87-116 | mark_process_status returns 0 iff pid > 0 and some process has that pid; otherwise it returns -1 and changes nothing |
| DshTmp.MarkChangesOneProcess | dsh-tmp.c:91-104 | a successful mark changes only the first process with the pid, and that process as Reaped says; every other process and every job field other than the pipeline are unchanged |
| DshTmp.MarkKeepsIds | dsh-tmp.c:93-103 | marking keeps every pgid, pipeline length and pid |
| DshTmp.MarkKeepsHasPid | dsh-tmp.c:95-96 | a pid present before a mark is present after it |
| DshTmp.WaitFrom | dsh-tmp.c:146-153 | the wait uses no more reaps than were supplied and keeps the number of jobs |
| DshTmp.MarkAll | dsh-tmp.c:149-150 | marking reap after reap keeps the number of jobs |
| DshTmp.WaitFromIsMarks | dsh-tmp.c:146-153 | wait_for_job takes no reap iff none is supplied; every reap before the last one taken succeeded and left the job neither stopped nor completed; when reaps remain, the last one taken failed or left the job stopped or completed; the list is the one marked by exactly the reaps taken, in order |
| DshTmp.WaitEndsStoppedOrDrained | dsh-tmp.c:149-152 | when every reap is for a known child, the loop ends only when the job is stopped (completed included) or the reaps run out |
| DshTmp.WaitTakesOne | dsh-tmp.c:149-150 | the do-while takes at least one reap, even for a job already stopped |
| DshTmp.WaitKeepsIds | dsh-tmp.c:146-153 | waiting keeps every pgid and pipeline length |
| DshTmp.StatusLabel | dsh-tmp.c:692-698 | "Stopped" iff the first process stopped; "Completed" iff completed and not stopped; "Running" iff neither |
| DshTmp.ListSlot | dsh-tmp.c:688-717 | an empty slot changes nothing; a NULL dereference happens only when no job has the slot's pgid or that job has no process, and then nothing is printed, cleared or unlinked; otherwise one line is appended for slot i showing the first job with that pgid, the one find_job returns (Shows: status word and freeing from its first process, its text); when that line freed its job the slot is cleared and the list becomes Unlinked at that job, and otherwise slots and list are kept |
| DshTmp.ListFrom | dsh-tmp.c:687-718 | list_jobs from slot i keeps the lines printed before as a prefix, only clears slots, only takes jobs out, and leaves the list unchanged when no line it prints freed its job |
| DshTmp.ListFromInv | dsh-tmp.c:687-718 | the list_jobs loop keeps its invariant from any slot to the last |
| DshTmp.ListSlotShows | dsh-tmp.c:688-717 | one pass keeps every printed line showing a job of the original list found by its slot's original pgid |
| DshTmp.ListFromShows | dsh-tmp.c:687-718 | the list_jobs loop keeps every printed line showing a job of the original list found by its slot's original pgid, and keeps the list a subset of the original |
| DshTmp.ListJobsEffect | dsh-tmp.c:683-722 | after list_jobs, slots are only cleared; lines are for distinct occupied slots in increasing order; a freed job's slot is 0 and an unfreed one's is unchanged; every changed slot belongs to a freed job; a job printed "Completed" was freed and one printed "Running" was not; without a NULL dereference every occupied slot is printed; each line shows a job of the original list with its slot's pgid, the status word and freeing of its first process, and its text; the list only loses jobs, and is unchanged when no line freed its job |
| DshTmp.ListJobsLosesSuccessor | dsh-tmp.c:713-716 | with three jobs whose middle one completed, list_jobs unlinks the third and then dereferences NULL at slot 2 |
| DshTmp.Shell.constructor | dsh-tmp.c:727 | job_array has 20 slots, all 0, and the job list is empty |
| DshTmp.Shell.FindLowestIndex | dsh-tmp.c:40-47 | returns -1 iff all 20 slots are non-zero, otherwise the smallest index holding 0 |
| DshTmp.Shell.FindPrevJob | dsh-tmp.c:67-76 | returns the job just before position k, or None exactly when k is the head or absent |
| DshTmp.Shell.RemoveAndFree | dsh-tmp.c:49-65 | the new list is Unlinked of the old one, and job_array is untouched |
| DshTmp.Shell.MarkProcessStatus | dsh-tmp.c:87-116 | the nested walk returns and leaves exactly what Mark says |
| DshTmp.Shell.WaitForJob | dsh-tmp.c:146-153 | the loop takes and leaves exactly what WaitFrom says |
| DshTmp.Shell.ListJobs | dsh-tmp.c:683-722 | the slot loop prints, frees and clears exactly as ListJobsSpec says |
| DshTmp.Shell.ListOneSlot | dsh-tmp.c:688-717 | one pass over slot i changes the job list, the slot array and the printed lines exactly as ListSlot says, and keeps the shell's invariant |
| DshTmp.Shell.ReadCmdLine | dsh-tmp.c:434-603 | the jobs of the line are appended to the list in order, and the return value is false exactly when the parse ends at a blank rest of line |
| DshTmp.ReadCommand | dsh-tmp.c:456-601 | one pass of the outer loop links at most one job and hands on to the next pass as ParseFrom says |
| DshTmp.CloseCommand | dsh-tmp.c:580-598 | closing a command appends one process iff the words fit argv, and copies commandinfo before closing at `;` and after closing otherwise |
| DshParser.InitProcess | dsh.c:195-206 | a fresh process has pid -1, no status, argc 0, is neither completed nor stopped, and has one argv slot with no NULL |
| DshParser.ReadProcessInfo | dsh.c:208-231 | argv is the whitespace-separated words in order, with no NULL written after them; an all-whitespace command leaves argc 0; every word needs its own slot |
| DshParser.Step | dsh.c:320-407 | a case either moves forward or stops at the character that ends the job; there is no comment ending |
| DshParser.ScanJob | dsh.c:318-410 | a job's scan that ends normally stops at a newline, NUL, `&` or `;` |
| DshParser.PipeCase | dsh.c:366-384 | the `\|` case computes exactly Step |
| DshParser.ScanCommand | dsh.c:318-410 | the switch loop computes ScanJob from a fresh job |
| DshParser.ParseFrom | dsh.c:287-432 | every pass links a job, jobs linked before are kept, and the parse never ends as blank |
| DshParser.CloseCommand | dsh.c:394-426 | the words become a process iff there is at most one; at `;` commandinfo is copied first and seq_pos moves past the `;`; commandinfo is then copied again, as cmdline_pos characters from the new seq_pos |
| Dsh.Shell.ReadCmdLine | dsh.c:271-433 | the jobs of the line are appended to the list in order |
| Dsh.ReadCommand | dsh.c:287-432 | one pass of the outer loop links one job and hands on to the next pass as ParseFrom says |
| DshParserProps.ScansAgree | dsh.c:320-407 | on text with no `#` and no `\|`, the dsh.c scan and the dsh-tmp.c scan give the same result |
| DshParserProps.HashIsCommandText | dsh.c:400-406 | at a `#` dsh-tmp.c ends the job while dsh.c copies the `#` into the command |
| DshParserProps.ScanPlain | dsh.c:400-406 | characters the switch does not handle, `#` included, are collected one by one |
| DshParserProps.CommandEnd | dsh.c:411-428 | a command ended by a newline or `&` is the last job, with commandinfo the cmdline_pos characters from seq_pos |
| DshParserProps.CommandSeq | dsh.c:394-398 | a command ended by `;` is linked with commandinfo copied from after the `;`, and the parse goes on there |
| DshParserProps.CommandLine | dsh.c:386-392 | a one-command line links one job with one process and its text; `&` sets bg and ends the job |
| DshParserProps.BlankLineLinksJob | dsh.c:299-300 | a line of only spaces and a newline links a job holding one process with argc 0 |
| DshParserProps.AlwaysLinksJob | dsh.c:299-311 | every line links at least one job and never ends as blank |
| DshParserProps.HashInCommand | dsh.c:400-406 | `a#b` is one command whose single argument is `a#b` |
| DshParserProps.SingleWord | dsh.c:219-228 | text without whitespace is a single argument |
| DshParserProps.SequenceLine | dsh.c:394-431 | `a;b` links two jobs; the first has as commandinfo \|a\| characters from after the `;`, and the second has \|a\|+1+\|b\| characters from there |
| DshParserProps.SequenceInfo | dsh.c:396 | when b is at least as long as a, the first job's commandinfo is the start of b |
| DshParserProps.TwoWords | dsh.c:203 | a command of two or more words overflows the one argv slot: the line is rejected with the job linked and empty |
| DshParserProps.RedirectThenWord | dsh.c:400-402 | a plain character after a redirect word, with any spaces before the name, rejects the line, keeping the job with the name stored and no process |
| DshParserProps.RedirectNameTooLong | dsh.c:326-331 | a file name longer than MAX_LEN_FILENAME, after any spaces, rejects the line, keeping the partly copied name |

## Left out

- spawn_job, eval, init_shell, put_job_in_foreground, put_job_in_background, continue_job and restore_control are not modelled. They are fork/exec, pipe, dup2, setpgid, terminal and signal calls.
- The waitpid call is not modelled. Reaps are a supplied sequence, and running out of them stands for waitpid failing (pid -1).
- WIFSTOPPED, WIFSIGNALED and WTERMSIG are not modelled. They become the WaitStatus datatype.
- free_job and invokefree memory release are not modelled: removal is unlinking only. A freed node that stays linked (the head of a one-job list) is kept as an ordinary job.
- print_job, printf/fprintf/perror output, promptmsg, fgets and the main loop are not modelled. list_jobs output is the sequence of Listed lines, with `position` always a space and left out.
- The malloc'd job_array is uninitialised in main; it starts with every slot 0 here.
- change_directory is an empty stub, and `cd`, `fg` and `bg` do nothing in main; not modelled.
- Allocation failures (`malloc`/`calloc` returning NULL, init_job and init_process failing) are not modelled: every allocation succeeds.
- readcmdline links the new job before scanning, and the model appends it once the pass ends. The final list is the same on every path, including the error paths.
- The argv overflow in readprocessinfo is undefined behaviour in C. The scan stops there with ArgvOverflow, and the job stays linked as it stood.
- TmpParser.ReadProcessInfo requires fewer than MAX_ARGS words, because readprocessinfo never checks MAX_ARGS. DshParser.ReadProcessInfo requires at most the one slot init_process allocates.
- commandinfo holds only the characters strncpy copies into it. When the copied span holds no NUL, strncpy writes no terminator. commandinfo is malloc'd and never cleared, so the printf of list_jobs reads uninitialised bytes after that span. Those bytes are not modelled: a Listed line's commandinfo is the copied span alone.
- The byte written one past a file name of exactly MAX_LEN_FILENAME characters is not modelled.
- dsh.c mallocs its line buffer, so the bytes after the terminator fgets writes are uninitialised. The dsh.c model reads them as NUL, like the calloc'd buffer of dsh-tmp.c.
- A pid as `int` is unbounded, and job_array entries are `int`; nothing here depends on their width.
- The `&` case's skip of spaces and its stderr warning about extra input are not modelled. The skip starts at the `&` itself and so never moves.
- JobModel.InitJob: commandinfo starts empty, where init_job leaves the freshly malloc'd buffer uninitialised.
- DshTmp.Mark: a pid below 0 with an errno other than ECHILD prints a perror message, which is left out; the return value, -1, is modelled.
- Dsh.Shell.ReadCmdLine: dsh.c's readcmdline returns nothing; the model has no return value.
