# tsh command resolution and line dispatch, in Dafny

This project models the core of `tsh`, a small interactive shell written in C
(`main.c`):

- `get_location` resolves a command name to an executable path. It walks the
  directories of `PATH` with `strtok(…, ":")` and returns the first
  `dir/command` that `access(X_OK)` accepts. It falls back to the command
  itself when `stat` reports an owner-executable regular file. An empty
  `PATH` goes straight to that fallback, and an unset `PATH` gives NULL.
- The per-line front end of `main` works on each line that `getline` returns:
  - it trims the line with `strtok` on `" \n"`;
  - it copies the trimmed text with `strcpy` and builds `argv` from the copy
    with a second `strtok` loop;
  - it locates `argv[0]`;
  - it dispatches to `exit`, `env`, `cp SRC DST`, a "Command not found"
    report, or an external run repeated `atoi(argv[1])` times (0 read as 1).

The files are:

- `options.dfy` holds the `Option` type.
- `cstrings.dfy` models NUL-terminated buffers and glibc's `strspn`, `strcspn`
  and `strtok` as methods over `array<char>`. The hidden save pointer of
  `strtok` becomes an explicit cursor. `Split` is the functional description
  of the tokens that successive `strtok` calls return.
- `numeric.dfy` models `atoi`.
- `resolve.dfy` holds `get_location`: the `Locate` function and the
  `GetLocation` method, which is proved equal to it.
- `shell.dfy` holds the line front end: the `LineAction` function and the
  `ProcessLine` method, which is proved equal to it.

The environment and the file system are parameters:

- `path: Option<CString>` is what `getenv("PATH")` returns.
- `accessX(p)` stands for `access(p, X_OK) == 0`.
- `regOwnerExec(p)` stands for a successful `stat(p)` that reports `S_ISREG`
  with `S_IXUSR` set.

Where the code and its written description differ, the model follows the
code:

- The first `strtok` on the line buffer overwrites the delimiter after the
  first word with NUL. The `strcpy` that makes `buff_copy` stops at that NUL.
  `argv` is therefore always the single first word of the line.
  - As a consequence, `cp SRC DST` never reaches `copy_file`: it is an
    ordinary command named `cp`.
  - A repeat count is never seen, and an external command runs once
    (`Shell.LineNeverCopiesOrRepeats`).
  - Called on an argument vector with more words, the dispatch
    (`Shell.Dispatch`) shows how it would behave.
- The count word stays in the `argv` handed to `execve`.
- `cp` is a builtin when `argv[1]` and `argv[2]` exist; further words are
  ignored.
- A negative count makes the `for` loop run no time at all.
- An empty command name is not special-cased by `get_location`.
- `access(X_OK)` alone decides a `PATH` hit, so a directory with the search
  bit set would be accepted. The model keeps this by leaving `accessX`
  unconstrained.

## Model

| member | source | states |
|---|---|---|
| Resolve.GetLocation | main.c:15-70 | The method (strdup of PATH, strtok loop on ":", early return on the first accessible candidate, then the stat fallback) returns exactly `Locate(path, command, …)`. |
| Resolve.SearchPath | main.c:37-60 | The strtok loop over the copied PATH returns the first accessible `dir/command` over the directories `Split` yields, or None. |
| Resolve.Locate | main.c:15-70 | An unset PATH gives None. Any result is either the command itself with the stat check true, or the candidate of the first directory (in PATH order) whose candidate is accessible. The result is None iff PATH is unset, or the stat check fails and no candidate is accessible. |
| Resolve.FirstMatch | main.c:39-60 | The directory loop: the first candidate in directory order that access(X_OK) accepts. A result is always accessible, and no directories give no result. |
| Resolve.Candidate | main.c:41-47 | The path built for a directory: the directory, then '/' at index |dir|, then the command. Its length plus the NUL is exactly the `command_num + token_num + 2` bytes that are allocated. |
| Resolve.CwdFallback | main.c:64-69 | The current-directory check: None iff stat does not report an owner-executable regular file, otherwise the command itself. |
| Resolve.FirstMatchSound | main.c:39-59 | A hit of the directory search is the candidate of the first directory whose candidate is accessible. |
| Resolve.FirstMatchFirstHit | main.c:39-59 | If directory k is the first with an accessible candidate, the search returns that candidate. |
| Resolve.FirstMatchNone | main.c:39-61 | The search finds nothing iff no directory's candidate is accessible. |
| Resolve.FirstMatchAppend | main.c:50-58 | Short circuit: a hit among the first directories ends the search; otherwise the search continues with the rest. |
| Resolve.EarlierDirectoryWins | main.c:39-54 | If directory i has an accessible candidate, the result is the candidate of some directory k <= i that is the first hit. |
| Resolve.EmptyPathChecksOnlyCwd | main.c:27-35 | With PATH "", only the current-directory check decides, and access() is never consulted. |
| Resolve.SameDirectoriesSameResult | main.c:27-69 | Two PATH values listing the same directories give the same result, so the empty-PATH branch agrees with the general search. |
| Resolve.OnlyColonsActsAsEmpty | main.c:37-69 | A PATH made only of colons yields no directory and behaves like the empty PATH. |
| Resolve.DoubledColonIgnored | main.c:37-60 | An empty PATH field between two colons is skipped: "a::b" gives the same result as "a:b". |
| Resolve.LeadingColonIgnored | main.c:37-60 | A leading colon in PATH does not change the result. |
| Resolve.TrailingColonIgnored | main.c:37-60 | A trailing colon in PATH does not change the result. |
| Resolve.PathOfDirectories | main.c:37-69 | A PATH built by joining directories with ":" is searched in exactly that order, then falls back to the stat check. |
| Resolve.SearchOrderExample | main.c:37-60 | With PATH "/bin:/usr/bin" and only /usr/bin/ls accessible, the result is "/usr/bin/ls". |
| CStrings.Strtok | main.c:210-216 | strtok: the call returns NULL iff the C string at the cursor holds no token. Otherwise the token starts at the first non-delimiter at or after the cursor (everything skipped is a delimiter) and equals the first token of that string. The buffer changes only when the token ends at a delimiter: then exactly that one delimiter becomes NUL and the cursor moves past it. If the token ends at the terminator, the cursor stays on the terminator. The tokens reachable from the new cursor are the remaining ones. |
| CStrings.NextToken | main.c:206-215 | strtok(NULL, delims) as the argv and PATH loops use it: the token returned is the first of those ahead of the cursor, NULL iff none is left, and the tokens after the new cursor are the rest. |
| CStrings.Split | main.c:38-58 | The token sequence successive strtok calls return: delimiters are skipped and each maximal run of non-delimiters is one token. Its properties are stated by SplitTokens, SplitEmptyIff, SplitConcat, SplitDoubledDelim, SplitJoin and SplitFirstRun. |
| CStrings.Strspn | main.c:190 | strspn from a position: everything skipped is a delimiter, it stops at a non-delimiter, and the tokens that remain are unchanged. |
| CStrings.Strcspn | main.c:190 | strcspn from a position: it stops at the first delimiter or NUL, and what it skipped is the start of the C string. |
| CStrings.Span | main.c:190 | The skipped prefix is made of delimiters and is maximal. |
| CStrings.CSpan | main.c:190 | The scanned prefix holds no delimiter and is maximal. |
| CStrings.SplitTokens | main.c:210-216 | Every token strtok yields is non-empty and free of delimiters. |
| CStrings.SplitEmptyIff | main.c:190-194 | strtok finds no token iff the string holds only delimiters. |
| CStrings.SplitConcat | main.c:38-58 | Splitting is additive across a delimiter: the tokens of `a d b` are those of `a` followed by those of `b`. |
| CStrings.SplitDoubledDelim | main.c:38-58 | Two adjacent delimiters split like one: the empty field between them yields no token. |
| CStrings.SplitJoin | main.c:38-58 | Joining non-empty, delimiter-free fields with a delimiter and splitting again returns the fields. |
| CStrings.SplitFirstRun | main.c:190 | The first token is the first maximal run of non-delimiters, preceded only by delimiters. |
| CStrings.NewBuffer | main.c:37 | A fresh buffer holding the string and a terminator, whose C string is the string up to its first NUL. |
| Numeric.Atoi | main.c:240 | atoi with unbounded integers: after leading white space, an optional sign and the digit run. A negative result means the first non-space character is '-'. A positive result means it is a digit or '+'. |
| Numeric.AtoiDecimal | main.c:240 | atoi reads back a decimal number with or without a minus sign and ignores what follows the digits. |
| Numeric.AtoiSkipsSpace | main.c:240 | atoi skips leading white space. |
| Numeric.AtoiNotANumber | main.c:240 | A string that does not start with white space, a sign or a digit reads as 0. |
| Shell.LineAction | main.c:189-235 | What one line makes the shell do: Skip iff the line yields no argv, and never a copy. |
| Shell.IsBuiltin | main.c:219-225 | Only "exit", "env" and "cp" (with two operands) are handled in-process. |
| Shell.Iterations | main.c:246 | How often `for (j = 0; j < times; j++)` runs: at least `times` and either 0 or `times`, so max(times, 0). |
| Shell.ProcessLine | main.c:189-235 | One pass of the loop body after getline (trim, copy, build argv, locate, dispatch) yields exactly `LineAction(line, …)`. |
| Shell.BuildArgv | main.c:209-217 | The argv fill loop collects exactly the tokens of the buffer's C string, in order. |
| Shell.Dispatch | main.c:219-235 | exit iff argv[0] is "exit". env iff it is "env". A copy iff it is "cp" with two more words, using argv[1] and argv[2]. "not found" iff not a builtin and unlocated. A run of the located program with the full argv and the repeat count iff not a builtin and located. |
| Shell.RepeatCount | main.c:237-245 | The count is never 0. It is 1 without a second word. Otherwise it is atoi of the second word, or 1 where atoi gives 0. |
| Shell.ExecuteRepeatedly | main.c:246-249 | The loop launches the located program with argv and an empty environment exactly `max(times, 0)` times. |
| Shell.LineArgv | main.c:190-217 | The argument vector built from a line holds at most one word. |
| Shell.SkipIffBlank | main.c:190-194 | A line is skipped iff it holds only spaces and newlines up to its first NUL. |
| Shell.ArgvIsFirstWord | main.c:190-217 | Otherwise argv is exactly one word: the first maximal run of characters other than space and newline. |
| Shell.LineNeverCopiesOrRepeats | main.c:201-248 | A line from input never triggers copy_file, and an external command from input runs once with argv equal to the line's single word. |
| Shell.BuiltinShadowsExecutable | main.c:218-228 | For a builtin, the action does not depend on the location found, and it is never a run or "not found". |
| Shell.ShortCpIsOrdinary | main.c:225-235 | "cp" without both operands is treated as an ordinary command: not found, or run. |
| Shell.RepeatCountOfNumber | main.c:237-246 | A second word "n…" (digits, then a non-digit) gives n, and 1 for n = 0. "-n…" gives -n, for which the loop runs no time. |
| Shell.RepeatCountOfWord | main.c:237-245 | A second word that does not start like a number gives 1. |

## Left out

- Process creation: `execute_command` and `execmd` (main.c:76-128) are not part of this model.
  - Their effects are recorded as the list of `Launch(program, argv, envp)` values that `ExecuteRepeatedly` produces.
  - `fork` failure (exit 1), `execve` failure (exit 1 in the child) and `wait` are not modelled.
  - The child calls `get_location` again on `argv[0]`. With an unchanged environment it gets the same path, so it is not modelled separately.
- `print_environment` (main.c:95-104) prints the environment. It is represented only by the `PrintEnv` action.
- `copy_file` (main.c:135-161) is file I/O. It is represented only by the `Copy(src, dst)` action.
- The outer loop of `main` (main.c:180-188, 251-254) is not modelled: the prompt, `getline` on stdin and the "Exiting shell...." message at end of input. The model starts from the line `getline` returned, read up to its first NUL.
- `getenv`, `access` and `stat` are not modelled as real calls. They are the parameters `path`, `accessX` and `regOwnerExec`.
- Memory management is not modelled: `malloc` failures, `free`, and the leaks of `argv`, `location` and the per-line buffers. The message printed when `buff_copy` cannot be allocated (main.c:196-200) is left out too, as is the write through NULL that would follow it.
- The size of `buff_copy`, `characters` bytes, is one byte short when the whole line is a single word with no trailing newline. The model copies into a buffer of the right size.
- The counting loop at main.c:202-208 only sizes the `argv` allocation; `token_num` is never reset between lines. It does not affect any result and is not modelled.
- Atoi: `int` overflow of `atoi` is not modelled. Integers are unbounded.
- Strtok: the hidden static save pointer is an explicit cursor. Nothing else calls `strtok` between the calls of one loop, so the behaviour is the same.
