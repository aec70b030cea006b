# A model of a minimalist Unix shell's command core

This project models the part of the minimalist shell (`src/shell-modify.c`)
that turns one input line into process activity:

- `lsh_split_line`, the tokenizer. It handles quotes, backslash-escaped quotes, the operators `<`, `>`, `>>` and `|`, and white space. Its token array grows in chunks of 64.
- `handle_redirection`. It scans an argument vector for `<`, `>` and `>>`, opens each named file, rebinds standard input or output, and cuts the vector for `execvp`.
- `find_pipe`, `execute_pipeline` and `lsh_launch`. These start the child processes, wire them with pipes and wait for them.
- `lsh_execute` and the built-in table. The dispatch decides between doing nothing, running a built-in in the shell, running it in a child, running a pipeline and launching a program. Its result keeps the shell loop going or ends it.

The modules follow the program:

- `Common` holds C strings and NULL-terminated argument vectors.
- `Lexer` models `lsh_split_line`.
  - The function `Tokenize` specifies the loop iteration by iteration, over the `strdup` copy of the line.
  - The method `SplitLine` works on a `char` array copy of the line and a growing token array, and is proved against `Tokenize`.
  - `Words` is an independent character-by-character reading of the same rules, proved equal to `Tokenize`.
- `Redirect` models `handle_redirection`.
  - The function `Resolve` is the scan.
  - The method `HandleRedirection` rewrites the argument array in place and is proved against it.
  - Whether `fopen` and `dup2` succeed is a parameter (`Env`).
- `Pipeline` models process creation.
  - What the shell does is a trace of `OpenPipe`, `Spawn`, `SpawnBuiltin`, `ClosePipe` and `Wait` events.
  - Every `pipe` and `fork` call is a numbered attempt, and the set `fails` says which attempts fail.
  - `ExecutePipeline` is the procedure as written.
  - `Chain` is a corrected pipeline: it runs each segment once and releases what it acquires.
  - `Child` is what a started program child does before `execvp`. A redirected built-in runs in a child of its own kind, which runs the built-in instead (`Dispatch.LaunchBuiltin`).
- `Dispatch` models `lsh_execute`.

An unterminated quote is not flushed as a final token: the flush at the end of the line is guarded by `!in_quote` (src/shell-modify.c:251), so the text after an unmatched quote is dropped, together with any word pending in front of it (`Lexer.UnterminatedQuoteDropped`).

## Model

| member | source | states |
|---|---|---|
| Common.CString | src/shell-modify.c:211-212 | `strdup(&buf[start])` copies the longest NUL-free prefix of the buffer from `start`, which is the whole buffer when it holds no NUL |
| Common.Argv | src/shell-modify.c:288 | a `char **` reader sees the strings in front of the first NULL slot |
| Common.Vector | src/shell-modify.c:277 | a NULL-terminated vector of words presents exactly those words |
| Lexer.Step | src/shell-modify.c:197-275 | one loop iteration: `i` advances, and the token list only grows, by at most two, keeping what was stored |
| Lexer.StepQuote | src/shell-modify.c:200-216 | a quote character (open, close, or a different quote inside quotes) keeps the loop in step with the character reading `Words` |
| Lexer.StepAppend | src/shell-modify.c:217-232 | `>>` outside quotes flushes the pending word and emits `>>`, in step with `Words` |
| Lexer.StepOther | src/shell-modify.c:233-260 | single operators, white space and ordinary characters keep the loop in step with `Words` |
| Lexer.Run | src/shell-modify.c:197-275 | the loop only appends tokens: those stored before are kept, in place |
| Lexer.Tokenize | src/shell-modify.c:170-280 | the loop runs over the `strdup` copy, which ends at the first NUL, and its tokens equal the character-by-character reading `Words` of that copy, for every line |
| Lexer.EveryToken | src/shell-modify.c:197-260 | on every line, each token is an operator, a non-empty word without white space or operator characters, or exactly the text between an unescaped quote and the next unescaped copy of the same quote |
| Lexer.UnquotedTokens | src/shell-modify.c:217-260 | without quotes, every token is an operator or a non-empty word without white space or operators, and the tokens concatenated give the line without its white space |
| Lexer.PlainText | src/shell-modify.c:251-260 | ordinary characters only extend the pending word |
| Lexer.QuotedToken | src/shell-modify.c:200-215 | a closed quote yields its body as one token, operators and white space included, and drops the pending word in front of it |
| Lexer.UnterminatedQuoteDropped | src/shell-modify.c:200-260 | an unclosed quote produces no token and discards the pending word in front of it |
| Lexer.Grow | src/shell-modify.c:262-272 | `realloc` by one chunk keeps the strings already stored |
| Lexer.Strdup | src/shell-modify.c:211-212 | copying from a slot cut with NUL yields exactly the characters between `start` and `i` |
| Lexer.Store | src/shell-modify.c:212-257 | `tokens[position++] = …` sets exactly slot `position`, and the stored slots then hold one more token |
| Lexer.CutAndStore | src/shell-modify.c:221-225 | cutting the copy at `i` and storing `strdup(&copy[start])` stores the pending word |
| Lexer.Advance | src/shell-modify.c:199-260 | the four branches applied to the arrays: the new loop state is `Step` of the old one, and the stored slots and the copy stay consistent |
| Lexer.MakeRoom | src/shell-modify.c:262-272 | the repaired capacity check leaves room for the two stores the next iteration may make, in whole chunks, and keeps the tokens already stored |
| Lexer.SplitLine | src/shell-modify.c:170-280 | the returned NULL-terminated array presents exactly `Tokenize(line)` and has room for them (the corrected capacity check) |
| Lexer.AppendFloodOverflows | src/shell-modify.c:217-277 | as written, a line of k `>>` stores `max(0, k-64)` tokens past the array, plus one more for the final NULL when k >= 128 |
| Lexer.OverflowFrom | src/shell-modify.c:262-277 | the as-written capacity check stores nothing out of bounds while the loop ends with fewer tokens than slots |
| Lexer.Overflow | src/shell-modify.c:170-280 | as written, a line of fewer than 64 tokens is tokenized without any store out of bounds |
| Lexer.LateCheckOverflows | src/shell-modify.c:233-277 | as written, 63 `\|` followed by `a\|` stores one token past the 64-slot array |
| Lexer.OperatorSplitsWord | src/shell-modify.c:234-249 | `cmd>file` yields `cmd`, `>`, `file` |
| Lexer.OperatorBetweenSpaces | src/shell-modify.c:234-260 | `cmd > file` yields `cmd`, `>`, `file` |
| Lexer.LongestMatchFirst | src/shell-modify.c:217-232 | `>>>` yields `>>`, `>` |
| Lexer.QuotedPipeIsBare | src/shell-modify.c:200-215 | `a "\|" b` yields `a`, `\|`, `b`: the token does not record that it was quoted |
| Redirect.ApplyDirective | src/shell-modify.c:293-388 | one operator: on success the loop state advances past the file name as the scan does; on failure the scan's error result is reached with what has been opened and applied so far |
| Redirect.Resolve | src/shell-modify.c:283-392 | the directives whose `dup2` took effect are a prefix of the files opened, one short exactly when the scan ended on a failed `dup2` |
| Redirect.Bind | src/shell-modify.c:310-317 | a directive's `dup2` binds the stream it names to its file and leaves the other stream as it was |
| Redirect.BindAll | src/shell-modify.c:293-388 | after the scan's `dup2` calls, each stream is either as it was or bound to a file |
| Redirect.Cut | src/shell-modify.c:319-321 | `args[i] = NULL` adds slot `i` to the slots overwritten with NULL |
| Redirect.HandleRedirection | src/shell-modify.c:283-392 | the array loop returns 0 or -1 as `Resolve` finds no error or an error, nulls exactly the scan's operator slots, binds the streams to the applied directives in order, and reports the files opened |
| Redirect.FirstRedirection | src/shell-modify.c:288-291 | the index of the first `<`, `>` or `>>` |
| Redirect.ScanSkipsWords | src/shell-modify.c:288-390 | ordinary arguments are passed over |
| Redirect.ScanShape | src/shell-modify.c:288-390 | only operator slots are nulled, the first operator is nulled on success, and the applied directives are a prefix of the opened ones (all of them on success) |
| Redirect.ExecArgvStopsAtFirstRedirection | src/shell-modify.c:319-321 | on success the vector left for `execvp` is the words in front of the first operator: later arguments are lost |
| Redirect.LastOf | src/shell-modify.c:293-388 | the position of the last directive rebinding a given stream, -1 exactly when none does |
| Redirect.LastDirectiveWins | src/shell-modify.c:310-317 | each stream ends bound to the file of the last directive that rebinds it (`LastOf`); with none of a kind, that stream is unchanged |
| Redirect.FailureCutsScan | src/shell-modify.c:293-316 | a failure stops the scan: what is opened, applied and nulled is a prefix of the failure-free scan, and a failed open names the next file that scan would open |
| Redirect.NoRedirectionNoEffect | src/shell-modify.c:288-392 | the scan has no effect exactly when no operator follows |
| Redirect.EarlierTargetStillTruncated | src/shell-modify.c:299-321 | `cmd > a.txt > b.txt` opens, and so truncates, both files; output goes to `b.txt` |
| Redirect.ArgumentAfterRedirectionLost | src/shell-modify.c:359-388 | `cat < in -n` executes plain `cat` |
| Redirect.OperatorTakenAsFileName | src/shell-modify.c:291-321 | `> > x` opens a file named `>`, passes over `x`, and leaves an empty vector for `execvp` |
| Redirect.MissingFileName | src/shell-modify.c:359-365 | `sort <` fails with -1 and opens nothing |
| Pipeline.FindPipe | src/shell-modify.c:395-406 | -1 exactly when there is no `\|`, otherwise the index of the first `\|` |
| Pipeline.ExecutePipeline | src/shell-modify.c:409-515 | always returns 1 and consumes at least one attempt |
| Pipeline.Launch | src/shell-modify.c:518-553 | `lsh_launch` returns 1 and makes one fork attempt |
| Pipeline.StageResources | src/shell-modify.c:419-506 | one round of `execute_pipeline` starts two children and waits for both, and opens one pipe and closes it |
| Pipeline.StageSpawns | src/shell-modify.c:441-496 | the round's first child reads the shell's input and writes the pipe; the second reads the pipe and writes the shell's output |
| Pipeline.LaunchReaps | src/shell-modify.c:518-553 | `lsh_launch` waits once, after the fork, for the one child it starts, which runs the whole line on the shell's streams; a failed fork starts nothing |
| Pipeline.PipelineReapsWithoutFailures | src/shell-modify.c:499-515 | when nothing fails, every child is waited for and every pipe closed |
| Pipeline.FirstForkFailureLeaksPipe | src/shell-modify.c:426-439 | a failed first fork returns with the pipe never closed |
| Pipeline.SecondForkFailureLeaksChild | src/shell-modify.c:466-472 | a failed second fork leaves the pipe open and the first child never waited for |
| Pipeline.TwoChildrenPerPipe | src/shell-modify.c:419-512 | when nothing fails, twice as many children are started as there are `\|` |
| Pipeline.PipelineRound | src/shell-modify.c:419-512 | when nothing fails, a line with a `\|` runs one two-child stage on the first pipe and then, if the right side holds another `\|`, the whole procedure again on the right side |
| Pipeline.MiddleCommandRunsTwice | src/shell-modify.c:419-512 | for any words `a`, `b`, `c` other than `\|`, the line `a \| b \| c` runs `b` once as part of `b \| c` reading the first pipe, and again on its own writing the second pipe |
| Pipeline.AsWrittenNotWired | src/shell-modify.c:474-512 | for any such `a \| b \| c`, the children are not connected in a row |
| Pipeline.Child | src/shell-modify.c:441-463 | a program child exits with failure exactly when its redirection scan fails; otherwise it executes the words in front of its first operator, with its own redirections applied over the pipe wiring |
| Pipeline.RedirectionInsidePipe | src/shell-modify.c:441-456 | in `ls > f \| wc`, the first child runs `ls > f` with output on the pipe |
| Pipeline.RedirectionOverridesPipe | src/shell-modify.c:443-456 | that child writes to `f`, so nothing reaches the pipe |
| Pipeline.SegmentsJoin | src/shell-modify.c:395-421 | splitting at every `\|` and joining again gives back the line |
| Pipeline.SegmentsCount | src/shell-modify.c:395-421 | there is one segment more than there are `\|` |
| Pipeline.SegmentsPipeFree | src/shell-modify.c:395-421 | no segment holds a `\|` |
| Pipeline.JoinSegments | src/shell-modify.c:395-421 | joining `\|`-free segments and splitting again gives back the segments |
| Pipeline.StartChain | src/shell-modify.c:409-515 | starting the segments of the corrected pipeline takes at least one attempt |
| Pipeline.Chain | src/shell-modify.c:409-515 | the corrected pipeline returns 1, as `execute_pipeline` does, and takes at least one attempt |
| Pipeline.ChainResources | src/shell-modify.c:409-515 | the corrected chain closes every pipe it opens and also the read end handed to it, and its children are those it records |
| Pipeline.ChainReaps | src/shell-modify.c:409-515 | the corrected pipeline closes every pipe and waits for every child exactly once, after starting it: the waits name distinct children, as many as were started, whichever `pipe` or `fork` fails |
| Pipeline.ChainRunsEachSegmentOnce | src/shell-modify.c:409-515 | when nothing fails, the corrected pipeline starts each segment exactly once, in order, the first reading the shell's input, each next one reading the pipe its predecessor writes, the last writing the shell's output |
| Pipeline.ChainWithoutPipeIsLaunch | src/shell-modify.c:413-417 | without `\|` the corrected pipeline does what `lsh_launch` does |
| Dispatch.FindBuiltin | src/shell-modify.c:40-41 | the first table index whose name matches, present exactly for `cd`, `help`, `exit`, `pwd` and `echo` |
| Dispatch.HasRedirection | src/shell-modify.c:566-576 | true exactly when some argument is `<`, `>` or `>>` |
| Dispatch.HasRedirectionIsFirstRedirection | src/shell-modify.c:566-576 | the dispatch's scan and the redirection scan agree on whether a line has a redirection |
| Dispatch.Decide | src/shell-modify.c:556-628 | nothing on an empty line; a built-in runs in the shell without redirection and in a child with one; other lines with `\|` are pipelines and the rest are launched |
| Dispatch.Execute | src/shell-modify.c:556-628 | `lsh_execute` returns 0 or 1 |
| Dispatch.LaunchBuiltin | src/shell-modify.c:583-610 | the shell returns 1 after forking a redirected built-in, and starts no program for it |
| Dispatch.LaunchBuiltinReaps | src/shell-modify.c:583-610 | the built-in's child, when the fork succeeds, is the only child and is waited for once, after the fork |
| Dispatch.BuiltinChildExit | src/shell-modify.c:588-598 | a redirected built-in's child exits with success exactly when the redirection succeeds and the built-in is not `exit` |
| Dispatch.ExitEndsShell | src/shell-modify.c:89-92 | the shell ends exactly on a line starting with `exit` that has no redirection |
| Dispatch.RedirectedExitKeepsShell | src/shell-modify.c:583-610 | `exit > log` returns 1, and its child exits with failure |
| Dispatch.RedirectionForcesChild | src/shell-modify.c:583-610 | a built-in with a redirection runs in one built-in child handed the whole line, which the shell waits for; no program is started |
| Dispatch.BuiltinBeforePipe | src/shell-modify.c:579-624 | `echo a \| wc` runs `echo` in the shell with `\|` as an argument and starts no process |
| Dispatch.ExecuteReapsOutsidePipelines | src/shell-modify.c:556-628 | every branch other than the pipeline waits exactly once for each child it starts |
| Dispatch.ExecuteChained | src/shell-modify.c:620-624 | with the corrected pipeline, the shell returns the same values |
| Dispatch.ExecuteChainedReaps | src/shell-modify.c:620-624 | with the corrected pipeline, every line closes every pipe and waits exactly once for each child it starts, whatever fails |
| Dispatch.QuotedPipeIsPipeline | src/shell-modify.c:620-624 | `a "\|" b` is dispatched as a pipeline |

## Left out

- `lsh_read_line`, `lsh_loop` and `main`: the model starts from a line already read, and the loop only repeats while `lsh_execute` returns non-zero (`Dispatch.ExitEndsShell`).
- Built-in bodies: only each built-in's return value is modelled. `cd`, `pwd`, `help` and `echo` talk to the operating system or the terminal.
- Real operating-system effects are outcomes given as parameters. This covers `fopen`, `dup2`, `pipe`, `fork` and `waitpid`, which are modelled by `Env` and by the failing-attempt set. What `execvp` does once called is not modelled.
- Pipeline.Child: the child's `dup2` onto its pipe end and its closing of the other end are assumed to succeed.
- Descriptors a child inherits are not modelled, nor is the parent closing its copies before a child reaches them.
- Pipeline.LaunchReaps: the `WUNTRACED` wait loop is one `Wait` event; stopped children are not distinguished.
- Heap management: `malloc` or `realloc` failure (exit with an allocation error), `free`, and the leaked token strings.
- `perror` and the error messages.
- `isspace` is the C locale's six white-space characters. Locale-dependent classes are not modelled.
- Pipeline.ExecutePipeline: the NULL the procedure writes over the first `|` is modelled by handing the two children the word lists in front of and after it, not as a write into the argument array.
- Redirect.HandleRedirection: `Env` decides each open and `dup2` by the directive alone, so the same file name always behaves the same within one scan.

## Findings

| source | as written | input that shows it | evidently intended | confidence | as-written member | corrected member |
|---|---|---|---|---|---|---|
| src/shell-modify.c:217-232 | the `>>` branch ends with `continue`, which skips the capacity check; the one check at the end of the line grows the array by a single chunk, so the final `tokens[position] = NULL` lands past it too | a line of 65 or more `>>` (128 or more for the NULL) | grow the token array whenever it is full, whatever the branch, and keep room for the final NULL | not executed | Lexer.AppendFloodOverflows | Lexer.SplitLine |
| src/shell-modify.c:262-277 | the capacity check runs after an iteration that may store two tokens | 63 `\|` followed by `a\|` | keep room for both stores of the iteration | not executed | Lexer.LateCheckOverflows | Lexer.SplitLine |
| src/shell-modify.c:466-472 | a failed second fork returns without closing the pipe or waiting for the first child | `a \| b` with the second `fork` failing | release the pipe and reap the child on every path | not executed | Pipeline.SecondForkFailureLeaksChild | Pipeline.ChainReaps |
| src/shell-modify.c:426-439 | a failed first fork returns without closing the pipe | `a \| b` with the first `fork` failing | close the pipe on the error path | not executed | Pipeline.FirstForkFailureLeaksPipe | Pipeline.ChainReaps |
| src/shell-modify.c:474-512 | the second child runs all the words after the first `\|`, later pipes included, and the recursion runs the middle commands again | `a \| b \| c` | run each command once, each one reading the previous one's output | not executed | Pipeline.MiddleCommandRunsTwice | Pipeline.ChainRunsEachSegmentOnce |
