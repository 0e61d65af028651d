# Action gating for a code-writing agent, in Dafny

The agent runs on a local LLM and acts on its host through three tools defined in
`tools_local.py`. This project models them and proves what they guarantee:

- **`run_shell(cmd)`** runs three stages in order, and the first stage that returns ends
  the call:
  1. A hard **denylist**. If the first word of `cmd`, as `shlex.split` lexes it, is one
     of `rm`, `rmdir`, `sudo`, `su`, `chmod`, `chown`, the tool returns a "blocked"
     notice.
  2. An **approval gate**. The operator is asked, and anything but `y` (after
     `strip().lower()`) is a rejection.
  3. **Execution**. The reply is `strip(stdout + stderr)`, or `(no output)` when that is
     empty.
- **`write_text(path, content)`** creates the parent directories and then overwrites the
  file. It reports `Wrote <len(content)> bytes to <path>`.
- **`read_text(path)`** returns the file's content. Any failure becomes the text
  `Error reading <path>: <error>`.

## Modules

- `results.dfy`: `Results.Result`, the success-or-error value. The model uses `Err` for
  an exception the source raises.
- `py_text.dfy` (`PyText`): the Python string operations the tools rely on.
  - `str.strip()` with no argument, using Python's whitespace set.
  - `str.lower()` on ASCII letters.
  - `str(n)` for lengths.
  - Each has lemmas that define it by its effect, for example
    `Strip(a + m + b) == m`, and the decimal round trip
    `DecimalValue(NatToString(n)) == n`.
- `shlex.dfy` (`Shlex`): `shlex.split` in its default configuration, which is POSIX mode
  with whitespace splitting and no comments.
  - Lemmas cover each rule: blanks, plain characters, backslash escapes outside quotes,
    single quotes, and double quotes. Inside double quotes a backslash escapes only `"`
    and `\`; before any other character it is kept. Further lemmas cover the two errors,
    "No closing quotation" for either quote and "No escaped character" at the end of the
    input.
  - Its partner is a reference encoder, `JoinWords`, which single-quotes each word and
    writes each `'` as `'"'"'`. The lemma `Split(JoinWords(ws)) == Ok(ws)` holds for
    every list of words.
- `policy.dfy` (`Policy`): `DENYLIST` and `_is_blocked`.
- `shell.dfy` (`Shell`): `run_shell` as a function of the command and two oracles:
  - the operator's reply, which is the string `input()` returns;
  - the finished child process `(stdout, stderr, returncode)`.

  Its result records the text returned or the exception raised. It also records whether
  the operator was asked and whether the command was run.
- `paths.dfy` (`Paths`): the part of `pathlib.Path` the file tools use.
  - Parsing drops empty and `.` names and keeps `..`.
  - `str(p)` and `p.parent` are modelled.
  - Round trip: `Parse(Render(p)) == p`.
- `file_tools.dfy` (`FileTools`): a file system reduced to a map from path to content and
  a set of directories.
  - `Write` and `Read` are specification functions on snapshots. `WriteState` is a
    third one: the state a write leaves, including one that raised.
  - `Read` reads in text mode, so `\r\n` and a lone `\r` come back as `\n`
    (`Universal`). A NUL in a path raises `ValueError` before any system call
    (`EmbeddedNullByte`).
  - Lemmas prove round trip, idempotence, frame and error cases.
  - The class `FileSystem` holds the live state. Its methods `WriteText` and `ReadText`
    work as the source does, and are proved against those functions.

## Where the code differs from its configuration and docstrings

The configuration is src/config.py:32-35, and the docstrings are tools_local.py:18-25,
35-41 and 52-58. Where they suggest otherwise, the model follows what the code does:

- The approval prompt is always shown. The configuration flag `SHELL_APPROVAL_REQUIRED`
  (src/config.py:32-34) is never read by `run_shell`, so there is no auto-approve mode.
  `ALLOWED_PATHS` (src/config.py:35) is never read either, so there is no path jail.
- Lexing errors are not caught. `shlex.split` lexes the whole command, so an unclosed
  quote or a trailing backslash anywhere raises a `ValueError`. This holds even after a
  listed first word: `rm 'x` raises instead of being blocked.
- A non-empty command with no words, such as `"   "`, raises an `IndexError` at `[0]`.
  The empty command is not blocked, because of the `if cmd` guard. The model returns
  `Raised(...)` for all of these.
- The "bytes" count is `len(content)`, which counts characters, not encoded bytes.
- `write_text` raises on failure. The model returns `Err` with the error kind. When only
  opening the file fails (a NUL in the file name), the directories made before it stay
  made.
- `read_text` does not always return the file's exact content: text mode translates line
  ends (see Findings).
- Failure to start the shell is not caught by `run_shell`. The process oracle always
  returns a finished process, so this case is outside the model.

## Model

| member | source | states |
|---|---|---|
| `PyText.StripLeft` | tools_local.py:68 | the result is a suffix of the input, everything removed is whitespace, and it does not start with whitespace |
| `PyText.StripRight` | tools_local.py:76 | the result is a prefix of the input, everything removed is whitespace, and it does not end with whitespace |
| `PyText.Strip` | tools_local.py:76 | the result neither starts nor ends with whitespace |
| `PyText.StripExact` | tools_local.py:76 | `strip` removes exactly the surrounding whitespace: `Strip(a + m + b) == m` whenever `a` and `b` are whitespace and `m` is trimmed |
| `PyText.StripTrims` | tools_local.py:76 | the stripped text is a slice of the input with only whitespace cut off on either side |
| `PyText.StripEmptyIff` | tools_local.py:76 | the stripped text is empty exactly when the input is all whitespace |
| `PyText.Lower` | tools_local.py:68 | lower-casing keeps the length and maps each character on its own |
| `PyText.NatToString` | tools_local.py:30 | `str(n)`: a non-empty string of digits with no leading zero |
| `PyText.DecimalRoundTrip` | tools_local.py:30 | the digits written for a length denote that length |
| `Shlex.DropBlanks` | tools_local.py:12 | skipping blanks gives a string no longer than the input that does not start with a blank |
| `Shlex.DropBlanksDropsBlanks` | tools_local.py:12 | what is skipped is exactly a blank prefix, and what is left is the rest of the input |
| `Shlex.ReadWord` | tools_local.py:12 | reading a word always consumes input, so the rest after the word is shorter |
| `Shlex.Split` | tools_local.py:12 | `shlex.split(cmd)`: its meaning is stated by `SplitJoinWords`, which recovers every word list from its reference encoding, and by the rule lemmas in the rows around it |
| `Shlex.SplitSkipsBlanks` | tools_local.py:12 | leading blanks do not change the words of a command |
| `Shlex.BlanksHaveNoWords` | tools_local.py:12 | a command made of blanks has no words |
| `Shlex.ReadPlain` | tools_local.py:12 | unquoted plain characters stand for themselves |
| `Shlex.ReadSingleQuoted` | tools_local.py:12 | inside single quotes every character except `'` is literal |
| `Shlex.ReadDoubleQuoted` | tools_local.py:12 | inside double quotes every character except `"` and `\` is literal |
| `Shlex.SingleQuoteUnclosed` | tools_local.py:12 | a single quote that is never closed raises "No closing quotation" |
| `Shlex.ReadEscaped` | tools_local.py:12 | outside quotes, `\c` reads as the literal `c`, whatever `c` is |
| `Shlex.TrailingBackslash` | tools_local.py:12 | a backslash at the end of the input, outside quotes, raises "No escaped character" |
| `Shlex.ReadDoubleEscape` | tools_local.py:12 | inside double quotes, `\"` and `\\` read as `"` and `\` |
| `Shlex.ReadDoubleBackslashKept` | tools_local.py:12 | inside double quotes, a backslash before any other character is kept along with it |
| `Shlex.ReadDoubleQuotedPrefix` | tools_local.py:12 | inside double quotes, characters other than `"` and `\` are taken over one by one |
| `Shlex.DoubleQuotedTrailingBackslash` | tools_local.py:12 | a backslash at the end of the input inside double quotes raises "No escaped character" |
| `Shlex.DoubleQuoteUnclosed` | tools_local.py:12 | a double quote that is never closed raises "No closing quotation" |
| `Shlex.ReadPlainWord` | tools_local.py:12 | a plain word closed by a blank or by the end of input is read as itself |
| `Shlex.SplitSingleQuotedPlain` | tools_local.py:12 | single quotes around a plain word do not change how the command splits |
| `Shlex.SplitDoubleQuotedPlain` | tools_local.py:12 | double quotes around a plain word do not change how the command splits |
| `Shlex.SplitEscapedPlain` | tools_local.py:12 | a backslash before a plain first character does not change how the command splits |
| `Shlex.SplitTrailingBackslash` | tools_local.py:12 | a plain command ending in a backslash cannot be split |
| `Shlex.SplitUnclosedSecond` | tools_local.py:12 | an unclosed quote after the first word makes the whole split raise |
| `Shlex.SplitWithoutQuoting` | tools_local.py:12 | a command without quotes or backslashes always splits |
| `Shlex.SplitPlainFirst` | tools_local.py:12 | a plain first word, after any blanks, is exactly the first word of the split |
| `Shlex.ReadQuoted` | tools_local.py:12 | a single-quoted word, including any `'` it contains, reads back as exactly that word |
| `Shlex.SplitJoinWords` | tools_local.py:12 | splitting recovers every list of words from its quoted, space-joined form |
| `Policy.FirstWord` | tools_local.py:12 | the empty command has the empty first word; a command that splits into words has the first of them; a lexing error raises that error; a non-empty command with no words raises `IndexError` |
| `Policy.Denylist` | tools_local.py:7 | the six command names `rm`, `rmdir`, `sudo`, `su`, `chmod`, `chown`; `ListedNamesBlocked` and `LookAlikesNotBlocked` state what membership means |
| `Policy.IsBlocked` | tools_local.py:10-13 | the empty command is not blocked; a command is blocked exactly when it is non-empty, splits, and its first word is on the list; the classifier raises exactly when finding the first word raises |
| `Policy.BlockedIffFirstWordListed` | tools_local.py:7-13 | for every list of words, written with each word single-quoted (quotes inside escaped as `'"'"'`), the command is blocked exactly when it has a first word on the denylist |
| `Policy.BlockedPlainWord` | tools_local.py:7-13 | a plain first word after any blanks is blocked exactly when it is on the denylist |
| `Policy.SameWordsSameVerdict` | tools_local.py:12-13 | the verdict on a non-empty command depends only on its words |
| `Policy.SingleQuotesDoNotHideWord` | tools_local.py:12-13 | leading blanks and single quotes around the first word do not change the verdict |
| `Policy.DoubleQuotesDoNotHideWord` | tools_local.py:12-13 | leading blanks and double quotes around the first word do not change the verdict |
| `Policy.BackslashDoesNotHideWord` | tools_local.py:12-13 | a backslash before the first character does not change the verdict |
| `Policy.EscapedRmRfBlocked` | tools_local.py:7-13 | `\rm -rf /` is blocked |
| `Policy.BlanksRaise` | tools_local.py:12 | a non-empty, blank-only command raises `IndexError` |
| `Policy.UnclosedQuoteRaises` | tools_local.py:12 | `w 'x...` with the quote left open raises and is not reported as blocked |
| `Policy.ListedNamesBlocked` | tools_local.py:7 | each of the six names is blocked as a first word, whatever arguments follow |
| `Policy.LookAlikesNotBlocked` | tools_local.py:13 | `RM`, `/bin/rm`, `rmx` and `Sudo` are not blocked: the match is exact and case-sensitive |
| `Policy.RmRfBlocked` | tools_local.py:7-13 | `rm -rf /` is blocked |
| `Shell.FormatOutput` | tools_local.py:75-76 | the result is never empty; all-whitespace output gives `(no output)`; other output gives the combined streams with only surrounding whitespace cut |
| `Shell.BlockedNotice` | tools_local.py:62 | the notice that quotes the blocked command; `RunShell` and `RmRfNeverRuns` state when it is returned |
| `Shell.Approved` | tools_local.py:68-70 | the reply approves exactly when it is `y` or `Y` after strip, as `ApprovedIff` states |
| `Shell.RunShell` | tools_local.py:51-76 | the operator is asked exactly when the command is not blocked; the command runs exactly when it is not blocked and is approved; blocked gives the notice, a lex failure raises, rejection gives the rejection text, and execution gives the formatted output |
| `Shell.ApprovedIff` | tools_local.py:68-70 | the reply approves exactly when, after strip, it is `y` or `Y` |
| `Shell.ApprovedWithWhitespace` | tools_local.py:68 | `y` or `Y` with any whitespace around it approves |
| `Shell.RejectedReplies` | tools_local.py:70-71 | an empty reply, `n`, or anything longer than one character after strip does not approve |
| `Shell.BlockedConsultsNoOracle` | tools_local.py:61-62 | a blocked or unsplittable command gets the same outcome for every reply and every process, and nobody is asked and nothing runs |
| `Shell.RejectedIgnoresProcess` | tools_local.py:70-71 | a rejected command returns the rejection text whatever the process would do, and it does not run |
| `Shell.ExitStatusIgnored` | tools_local.py:74-76 | the returned text does not depend on the exit status |
| `Shell.ExecutedOutput` | tools_local.py:74-76 | an approved command returns its combined output with only the surrounding whitespace removed |
| `Shell.SilentCommand` | tools_local.py:76 | an approved command whose output is only whitespace returns `(no output)` |
| `Shell.RmRfNeverRuns` | tools_local.py:61-62 | `rm -rf /` returns the blocked notice without asking and without running, even when the reply would be `y` |
| `Shell.EchoNotBlocked` | tools_local.py:61 | `echo hi` is not blocked |
| `Shell.PlainYApproves` | tools_local.py:68-70 | the reply `y` approves |
| `Shell.HiNewlineFormatsAsHi` | tools_local.py:75-76 | the output `hi` followed by a newline is reported as `hi` |
| `Shell.EchoApproved` | tools_local.py:60-76 | `echo hi` approved with `y` returns `hi`, after asking and running |
| `Paths.Segments` | tools_local.py:27 | splitting on `/` gives at least one piece, and no piece contains `/` |
| `Paths.Clean` | tools_local.py:27 | the names kept are non-empty, not `.`, and come from the input |
| `Paths.CleanAppend` | tools_local.py:27 | cleaning works name by name and keeps the order: `Clean(a + b) == Clean(a) + Clean(b)` |
| `Paths.CleanOne` | tools_local.py:27 | a single name is dropped exactly when it is empty or `.` |
| `Paths.Parse` | tools_local.py:27 | `Path(path)` is a normalised path |
| `Paths.Render` | tools_local.py:30 | `str(p)`; `RenderParse` proves `Path(str(p)) == p` |
| `Paths.Parent` | tools_local.py:28 | the parent keeps absoluteness and is one name shorter; `.` and `/` are their own parent |
| `Paths.SegmentsJoin` | tools_local.py:27 | splitting on `/` undoes joining with `/` |
| `Paths.RenderParse` | tools_local.py:30 | `Path(str(p)) == p` for every normalised path |
| `Paths.ParseRenderParse` | tools_local.py:30 | the path shown in the confirmation names the path that was written |
| `Paths.AncestorsOfParent` | tools_local.py:28 | the ancestors of `p` are `p.parent` and the parent's ancestors, which are what `mkdir(parents=True)` creates |
| `Paths.Ancestors` | tools_local.py:28 | every ancestor has the same anchor and fewer names; `AncestorsOfParent` makes them `p.parent` and its ancestors |
| `Paths.NotOwnAncestor` | tools_local.py:28 | a path is not its own ancestor |
| `Paths.AncestorsTransitive` | tools_local.py:28 | an ancestor of an ancestor is an ancestor |
| `Paths.TopIsAncestor` | tools_local.py:28 | only `.` and `/` have no ancestors, and every other path has its top directory as an ancestor |
| `FileTools.ReadExact` | tools_local.py:44-45 | opening succeeds exactly for existing files whose path holds no NUL, and gives the stored characters |
| `FileTools.Read` | tools_local.py:44-45 | text-mode reading succeeds exactly when opening does, gives the stored text with universal newlines, which holds no `\r`, and fails with the opening's error |
| `FileTools.Universal` | tools_local.py:45 | the decoded text holds no `\r` and is no longer than the stored text |
| `FileTools.UniversalIdentity` | tools_local.py:45 | text without a `\r` is decoded unchanged |
| `FileTools.UniversalLineEnds` | tools_local.py:45 | `\r\n` and a lone `\r` decode to `\n`, and every other character to itself |
| `FileTools.UniversalAppend` | tools_local.py:45 | decoding works piece by piece wherever the cut does not split a `\r\n`; with `UniversalLineEnds` this fixes the decoding of every text |
| `FileTools.ReadErrorText` | tools_local.py:46-47 | the error text starts with `Error reading <path>: ` and carries more after it |
| `FileTools.Describe` | tools_local.py:47 | `str(e)`: `embedded null byte` for the NUL error, `[Errno n] message` otherwise; `ReadErrorText` places it after the prefix |
| `FileTools.WroteMessage` | tools_local.py:30 | the confirmation; `WroteMessageReports` states that it carries `len(content)` and the path |
| `FileTools.ThroughFileParent` | tools_local.py:28 | a file on the way to `p` is `p.parent` itself or lies on the way to `p.parent` |
| `FileTools.NulInParent` | tools_local.py:28 | a NUL in a directory name is a NUL in every path below it |
| `FileTools.WriteOkIff` | tools_local.py:27-29 | a write succeeds exactly when the path holds no NUL, no directory on the way is a file, and the path is not a directory |
| `FileTools.Mkdirs` | tools_local.py:28 | a successful `mkdir(parents=True, exist_ok=True)` leaves the files alone and makes the directory and all its ancestors exist |
| `FileTools.WriteFile` | tools_local.py:29 | a successful open-and-write happens only inside an existing directory, leaves the directories alone, and the file then holds exactly the content |
| `FileTools.Write` | tools_local.py:27-29 | the outcome of `write_text`; `WriteOkIff` states when it succeeds and `WriteEffect` what it leaves |
| `FileTools.WriteState` | tools_local.py:27-29 | the state after `write_text`, also when it raised; `WriteEffect`, `WriteFailsCleanly` and `NulNameAfterMkdir` state it |
| `FileTools.WriteEffect` | tools_local.py:27-29 | after a write every ancestor exists and the file holds exactly the content (overwrite, no append); no other file changes; this is the state the write leaves |
| `FileTools.WriteFailsCleanly` | tools_local.py:28-29 | a write that raises an OSError leaves the file system as it was, although `mkdir` runs before the file is opened |
| `FileTools.MkdirsPreservesWellFormed` | tools_local.py:28 | `mkdir(parents=True, exist_ok=True)` keeps the file system consistent |
| `FileTools.WritePreservesWellFormed` | tools_local.py:28-29 | a write keeps the file system consistent, whether or not it raises |
| `FileTools.ReadAfterWrite` | tools_local.py:29-45 | reading right after a write returns the content with its line ends translated, which is exactly the content when it holds no `\r` |
| `FileTools.ReadExactAfterWrite` | tools_local.py:29-45 | reading without newline translation right after a write returns exactly the content written |
| `FileTools.WriteIdempotent` | tools_local.py:27-29 | repeating a write succeeds and leaves the same state |
| `FileTools.WriteLeavesOtherFiles` | tools_local.py:29 | every other path is readable exactly as before, with the same content |
| `FileTools.WroteMessageReports` | tools_local.py:30 | the confirmation carries digits that denote `len(content)` and a path that parses back to the path written |
| `FileTools.Fresh` | tools_local.py:21 | the empty working directory is a consistent file system |
| `FileTools.NestedPathParses` | tools_local.py:27 | `a/b/c.txt` parses to the three names `a`, `b`, `c.txt` |
| `FileTools.NestedWriteScenario` | tools_local.py:27-29 | writing `hello` to `a/b/c.txt` in an empty directory creates `a`, `a/b` and the file, and reading it back gives `hello` |
| `FileTools.CarriageReturnReadBack` | tools_local.py:29-45 | writing `a\r\nb` or `a\rb` to `f` succeeds, but reading it back gives `a\nb`; the stored text is what was written |
| `FileTools.NulNameAfterMkdir` | tools_local.py:28-29 | writing to `d/x` followed by a NUL raises `EmbeddedNullByte`, and leaves the directory `d` made |
| `FileTools.FileSystem.constructor` | tools_local.py:21 | a new file system is consistent and empty |
| `FileTools.FileSystem.WriteText` | tools_local.py:17-30 | the new state is the state `Write` leaves, also when it raises; the reply is the confirmation on success and the error kind on failure; consistency is kept |
| `FileTools.FileSystem.ReadText` | tools_local.py:34-47 | returns the text-mode content of an existing file, otherwise the error text for the read's failure, including `embedded null byte`; it never raises and changes nothing |

## Left out

- Console output: the banner lines printed before the prompt (tools_local.py:65-67) are
  not modelled.
- The prompt itself is not modelled: `input()` is replaced by its returned string, so
  end-of-input errors are not covered.
- Subprocess internals: the shell's semantics, waiting for the child, and the decoding
  and newline translation of its output are outside the model. The process is an
  oracle returning the decoded `stdout`, `stderr` and `returncode`.
- A failure to start the shell is not modelled. The source does not catch it.
- Real `pathlib` and OS behavior beyond what is listed here:
  - paths relative to the working directory;
  - how the OS resolves `..` and symbolic links;
  - the special POSIX root `//`, which pathlib keeps and this model reads as `/`.
- Permissions, a full disk and other `OSError`s are not modelled. Only the faults these
  paths can produce by their shape are: file not found, file exists, not a directory, is
  a directory, and the `ValueError` for a NUL in the path.
- UTF-8 encoding and decoding, and decode errors on read, are not modelled. Content is a
  string of characters.
- Concurrent changes to the file system by other processes are not modelled.
- PyText.Lower: only ASCII letters are lower-cased, not the full Unicode case mapping.
  The approval check is unaffected, because no character other than `Y` lower-cases to
  `y`.
- FileTools.Describe: for an OSError it gives the `[Errno n] message` part of the exception text. It omits
  the `: '<filename>'` suffix Python adds.
- The rest of the repository is not part of this model:
  - the `@tool` decorator and agent framework;
  - the `calculator` tool in run_agent.py;
  - the CLI, logging and configuration loading under `src/`.

## Findings

| source | as written | input that shows it | evidently intended | confidence | as-written member | corrected member |
|---|---|---|---|---|---|---|
| tools_local.py:45 | `p.read_text(encoding="utf-8")` reads in text mode with universal newlines, so `\r\n` and `\r` come back as `\n`, while `write_text` (line 29) stores them unchanged | `write_text("f", "a\r\nb")`, then `read_text("f")` gives `a\nb` | reading right after writing gives back exactly the content, for example by reading with `newline=""` | high; not executed | `FileTools.CarriageReturnReadBack` | `FileTools.ReadExactAfterWrite` |

`FileSystem.ReadText` and `Read` keep the behaviour as written, because they model the
tool as it stands. `ReadExact` is the corrected read, and `ReadExactAfterWrite` proves the
exact round trip for it.
