# shellpy in Dafny

shellpy lets a Python script run shell commands written between backticks.
A `.spy` script is compiled to a plain Python file before it runs. Every
backtick command becomes a call to the runtime function `exe`, which runs
the command and returns its output as a `Result`, or as an
`InteractiveResult` with line-by-line streams. This project models three
parts of that system and proves properties about them:

- **The compiler** (`shellpython/preprocessor.py`).
  - The two regular-expression passes applied to every source line.
  - The `.spy` → `.py` renaming.
  - `translate_to_temp_path`, which places compiled files in the per-user cache tree.
  - The header choice of `preprocess_file`.
  - The file selection of `preprocess_module`.
  - The execute bit set on every compiled file.
- **The runtime** (`shellpython/core.py`).
  - Flag parsing (`_is_param_set`).
  - The `exe` dispatch.
  - `Result` and what `_create_result` does once the process has run: collecting lines, the conditional prints, and the return-code check.
  - The text of `NonZeroReturnCodeError`.
  - `Stream.sreadline` and `Stream.swriteline`.
- **The locator** (`shellpython/locator.py`).
  - `locate_spy_file` and `locate_spy_module`, the searches along `sys.path`.

The model is split into these modules:

| file | module | contents |
|---|---|---|
| `strings.dfy` | `Strings` | Python's string operations used by the code: `find`, `rstrip`, `join`, `readline`/`readlines`, `str(int)` |
| `paths.dfy` | `Paths` | `posixpath.join`, `abspath`, `relpath` against the root, the cache path |
| `rewrite.dfy` | `Rewriter` | the two backtick passes, as recursive definitions and as left-to-right scans |
| `preprocessor.dfy` | `Preprocessor` | the `.spy` renaming, `preprocess_file`, `preprocess_module`, file modes |
| `core.dfy` | `Core` | configuration, `Result`, `_create_result`, the error text, `Stream`, `exe` |
| `locator.dfy` | `Locator` | the two searches |

The model replaces the machine with inputs:

- **Subprocess.** A process is its stdout text, its stderr text and its return code.
- **Files.**
  - A source file is its text, and a header template is a function from name to text.
  - The filesystem is the set of paths that exist.
  - `os.walk` is the list of directories it reports, each reached from the top through a list of subdirectory names.
- **Environment.** The working directory, the temporary directory, the user name and the umask are parameters.
- **Printing.** Printing is recorded as the list of `print` calls made.
- **Platform.** `os.linesep` is "\n" and paths are POSIX.
- **Colour.** Colour output is off.

Each regular-expression pass is defined on arbitrary text, the way the
regular expression behaves. Lemmas then say what the pass does to one line
as `readlines` returns it:

- **Pass 1** (`` `([^`]*)` ``) replaces every closed backtick pair. The pair may span newlines.
- **Pass 2** (`` `(.*)$ ``) replaces the first backtick from which the rest of the text is a single line. It keeps the final newline.

Both passes insert the command verbatim: no quote is escaped. Each pass has
a recursive definition and a loop that scans left to right, and the loop is
proved to compute the definition.

The model follows the code where the program's own unit tests disagree with it:

- **No later pipeline.** `shellpython/tests/test_preprocessor.py` calls `process_code_start`, `process_code_both`, `process_long_lines`, `process_multilines` and `escape`, and `shellpython/tests/test_preprocessor_intermediate.py` calls `preprocess_code_to_intermediate`. `shellpython/preprocessor.py` defines none of them. The model has only the two substitutions that `preprocess_file` applies to each line.
- **Execute bit everywhere.** The execute bit is added to every compiled file, module files included (preprocessor.py lines 73-75).
- **Failures raise.** `_create_result` raises `NonZeroReturnCodeError` for any non-zero return code unless the 'n' flag is given. The unit tests in `shellpython/tests/test_unix_core.py` lines 38-49, 59-65 and 72-75 expect a returned result instead (`Core.FailureScenario`).
- **`EXIT_ON_ERROR` unused.** `EXIT_ON_ERROR` (config.py line 8) is read nowhere in `core.py`, although `test_unix_core.py` line 116 patches it.

## Model

| member | source | states |
|---|---|---|
| Strings.Find | shellpython/core.py:67-68 | `str.find` for one character: -1 exactly when the character is absent, otherwise the index of its first occurrence |
| Strings.RStrip | shellpython/core.py:218 | `rstrip` returns a prefix that does not end in a stripped character; every removed character is one of the stripped ones |
| Strings.ReadLine | shellpython/core.py:110 | `readline` returns a prefix of the remaining text with no newline except possibly a final one. It is the whole text when the text has no newline, ends with a newline otherwise, and is empty only at end of file |
| Strings.ReadLines | shellpython/preprocessor.py:54 | the lines `readlines` returns concatenate back to the text; every line is non-empty and every line but the last ends with a newline |
| Strings.ReadLineOfLine | shellpython/core.py:110 | `readline` on a line followed by more text returns exactly that line |
| Strings.ReadLinesOfConcat | shellpython/preprocessor.py:54 | round trip: `readlines` of the concatenation of a well-formed line list is that list |
| Strings.LastLineEnds | shellpython/preprocessor.py:48-54 | a text that ends with a newline has a last line that ends with one |
| Strings.Join | shellpython/core.py:197 | `sep.join(parts)`: the parts with the separator between neighbours; its laws are the three rows below |
| Strings.JoinAppend | shellpython/core.py:197 | joining one more part appends the separator and that part |
| Strings.JoinEmptyIff | shellpython/core.py:197 | with a non-empty separator, the joined text is empty exactly for no parts or a single empty part |
| Strings.JoinInjective | shellpython/core.py:197 | joining with a separator that occurs in no part is injective on non-empty part lists |
| Strings.NatToString | shellpython/core.py:90-91 | the decimal rendering of a return code is non-empty, all digits, without a leading zero |
| Strings.IntToString | shellpython/core.py:90-91 | `str(code)`: a minus sign for a negative code, then the digits of Strings.NatToString; the row below proves it parses back |
| Strings.IntToStringRoundTrip | shellpython/core.py:90-91 | the rendering of any integer, sign included, parses back to that integer |
| Paths.PathJoin | shellpython/locator.py:14 | `os.path.join(a, b)`: an absolute `b` replaces `a`; otherwise `b` is appended, after a slash unless `a` is empty or ends with one |
| Paths.PathJoinCancel | shellpython/locator.py:14 | joining relative names onto the same directory gives equal paths exactly for equal names |
| Paths.Components | shellpython/preprocessor.py:35-36 | every component of a path is non-empty and slash-free |
| Paths.ComponentsOfAbsolute | shellpython/preprocessor.py:35-36 | round trip: the components of the canonical absolute spelling of a component list are that list |
| Paths.ComponentsSlash | shellpython/preprocessor.py:35-36 | the components of `a + "/" + b` are those of `a` followed by those of `b` |
| Paths.ComponentsOfJoin | shellpython/preprocessor.py:28 | `os.path.join` adds the components of a relative tail; an absolute tail replaces the components |
| Paths.JoinAbsoluteIff | shellpython/preprocessor.py:28 | a join is absolute exactly when one of its parts is |
| Paths.NormalizeFrom | shellpython/preprocessor.py:35 | `normpath` component by component: "." is dropped, ".." removes the last kept component and is dropped at the root, anything else is kept; its laws are the three rows below |
| Paths.NormalizePlainResult | shellpython/preprocessor.py:35 | `normpath` leaves only components that are neither "." nor ".." |
| Paths.NormalizeAppend | shellpython/preprocessor.py:35 | normalization runs left to right, so a path can be normalized piece by piece |
| Paths.NormalizeOfPlain | shellpython/preprocessor.py:35 | plain components are kept unchanged by `normpath` |
| Paths.AbsComponents | shellpython/preprocessor.py:35 | the components of `abspath(path)` are all plain names |
| Paths.Abspath | shellpython/preprocessor.py:35 | `abspath` returns an absolute path whose components are the normalized components of the path joined onto the working directory; it starts with "//" exactly when that joined path starts with exactly two slashes, as `posixpath.normpath` keeps them |
| Paths.AbspathIdempotent | shellpython/preprocessor.py:35 | `abspath` is idempotent and an absolute path names the same place from any working directory |
| Paths.AbspathRoots | shellpython/preprocessor.py:35 | `abspath("//a")` is "//a", while "/a" and "///a" both give "/a" |
| Paths.ComponentsOfNestedJoin | shellpython/preprocessor.py:28-35 | resolving a relative tail against a directory and then the working directory adds its components at the end |
| Paths.AbsComponentsOfJoin | shellpython/preprocessor.py:28-35 | joining plain names onto a directory appends them to its absolute components |
| Paths.RelativeToRoot | shellpython/preprocessor.py:36 | `relpath` against the root is non-empty and relative |
| Paths.RelativeInjective | shellpython/preprocessor.py:36 | two paths have the same `relpath` against the root exactly when they have the same absolute components |
| Paths.CacheRoot | shellpython/preprocessor.py:38 | `<tempdir>/shellpy/<user>`: the first three parts of the cache-path join, shared by every file of one user |
| Paths.TranslateToTemp | shellpython/preprocessor.py:34-39 | the cache path starts with `<tempdir>/shellpy/<user>` and continues with the relative path of the source, with or without a slash |
| Paths.TranslateInjective | shellpython/preprocessor.py:34-39 | two sources share a cache path exactly when their absolute paths have the same components, so "//a" and "/a", which `abspath` spells differently, share one |
| Paths.RelativeBelow | shellpython/preprocessor.py:36 | below a directory other than the root, the relative path grows by the names added below it |
| Paths.TranslateBelow | shellpython/preprocessor.py:34-39 | the cache path of a file below a directory is the directory's cache path, a slash, and the names leading down to the file |
| Paths.TranslateNested | shellpython/preprocessor.py:34-39 | joining plain relative names onto a directory appends them to its cache path |
| Paths.PathJoinExtend | shellpython/preprocessor.py:38 | joining a longer relative path onto the cache root extends the shorter join by the extra names |
| Paths.TranslateIsJoin | shellpython/preprocessor.py:38 | the cache path is the relative path joined onto the cache root |
| Rewriter.FixedTextsClean | shellpython/preprocessor.py:55-56 | the fixed text around the command holds no backtick and no newline, and the call never ends with a newline |
| Rewriter.ExeCall | shellpython/preprocessor.py:55-56 | the replacement call has the backticks and newlines of the command and no others; it is non-empty and does not end with a newline |
| Rewriter.ExeCallVerbatim | shellpython/preprocessor.py:55-56 | round trip: the command can be read back exactly from the emitted call |
| Rewriter.ExeCallInjective | shellpython/preprocessor.py:55-56 | different commands give different calls |
| Rewriter.SubBoth | shellpython/preprocessor.py:55 | `code_both_pattern.sub`: scanning left to right, a backtick with a later partner opens a pair whose text becomes the call, and a backtick without one stays; the SubBoth rows below and Rewriter.ScanBoth state its behaviour |
| Rewriter.SubBothNoBacktick | shellpython/preprocessor.py:55 | pass 1 leaves text without backticks unchanged |
| Rewriter.SubBothAfter | shellpython/preprocessor.py:55 | pass 1 copies a leading backtick-free text and continues on the rest |
| Rewriter.SubBothPair | shellpython/preprocessor.py:55 | pass 1 replaces the first closed pair by the call and resumes after the closing backtick |
| Rewriter.SubBothLone | shellpython/preprocessor.py:55 | a single backtick with no partner survives pass 1 with everything after it |
| Rewriter.SubBothShape | shellpython/preprocessor.py:55 | after pass 1 one backtick is left if the count was odd and none if even. Newlines are neither added nor removed, the text ends with a newline exactly when the input did, and only empty text maps to empty text |
| Rewriter.SubStart | shellpython/preprocessor.py:56 | `code_start_pattern.sub`: the first backtick after which the text is a single line is replaced, with the rest of that line, by the call; the SubStart rows below and Rewriter.ScanStart state its behaviour |
| Rewriter.SubStartNoBacktick | shellpython/preprocessor.py:56 | pass 2 leaves text without backticks unchanged |
| Rewriter.SubStartAfter | shellpython/preprocessor.py:56 | pass 2 copies a leading backtick-free text and continues on the rest |
| Rewriter.SubStartLine | shellpython/preprocessor.py:56 | on a line, pass 2 replaces the first backtick and the rest of the line by the call and keeps the final newline |
| Rewriter.StartShape | shellpython/preprocessor.py:56 | the pass 2 replacement leaves no backtick, is non-empty, and keeps the newline count and whether the text ends with a newline |
| Rewriter.SubStartOneBacktick | shellpython/preprocessor.py:56 | on a line with exactly one backtick, pass 2 removes it and keeps the line's newline shape |
| Rewriter.Rewrite | shellpython/preprocessor.py:55-56 | one source line through pass 1 and then pass 2; the rows below state what it does to a line |
| Rewriter.RewriteUnchanged | shellpython/preprocessor.py:55-56 | a line without backticks is emitted unchanged |
| Rewriter.RewritePair | shellpython/preprocessor.py:55-56 | a closed pair becomes the call and the text before it, flag letters included, stays in front |
| Rewriter.RewriteStart | shellpython/preprocessor.py:55-56 | an unclosed backtick takes the rest of the line, without its newline, into the call |
| Rewriter.RewriteLineShape | shellpython/preprocessor.py:54-57 | a rewritten line has no backtick left and is still one line. It ends with a newline exactly when the source line does, has the same number of newlines, and is empty only for an empty line |
| Rewriter.RewriteExample | shellpython/preprocessor.py:55-56 | `` x = p`echo hello` `` becomes `x = p` followed by the call on `echo hello`, and the newline is kept |
| Rewriter.ScanBoth | shellpython/preprocessor.py:55 | the left-to-right scan that tries a pair at each position computes pass 1 |
| Rewriter.ScanStart | shellpython/preprocessor.py:56 | the scan for the first matching backtick computes pass 2 |
| Rewriter.RewriteLine | shellpython/preprocessor.py:54-57 | both scans in sequence compute the line rewrite; a line stays a line without backticks; a backtick-free line is unchanged |
| Preprocessor.IsSpyName | shellpython/preprocessor.py:27 | `spy_file_pattern.match(name)`: the name is one line (a final newline allowed) ending in ".spy" before that newline |
| Preprocessor.RenameSpy | shellpython/preprocessor.py:59 | `spy_file_pattern.sub(r"\1.py", path)` as a search over start positions; the rows below give its closed form and laws |
| Preprocessor.RenameSpyClosedForm | shellpython/preprocessor.py:59 | the regular-expression search equals the closed form: a final ".spy" (before an optional final newline) becomes ".py", anything else is unchanged |
| Preprocessor.RenameSpySuffix | shellpython/preprocessor.py:59 | a newline-free path ending in ".spy" has exactly that suffix replaced by ".py" |
| Preprocessor.RenameSpyOther | shellpython/preprocessor.py:59 | a newline-free path not ending in ".spy" is left unchanged |
| Preprocessor.RenameSpyInjective | shellpython/preprocessor.py:59 | distinct ".spy" paths are renamed to distinct ".py" paths |
| Preprocessor.RenamedNameIsPlain | shellpython/preprocessor.py:59 | the renamed form of a file name is again a plain file name |
| Preprocessor.RenameSpyInDir | shellpython/preprocessor.py:59 | renaming a joined path renames only its file name |
| Preprocessor.HeaderName | shellpython/preprocessor.py:45 | the root script gets `header_root.tpl`, every other file gets `header.tpl` |
| Preprocessor.RewriteAll | shellpython/preprocessor.py:54-57 | one output line per input line, each the rewrite of the line at the same position |
| Preprocessor.RewriteAllWellFormed | shellpython/preprocessor.py:54-57 | rewriting keeps a `readlines` list well formed, leaves no backtick and keeps the newline total |
| Preprocessor.CompileBody | shellpython/preprocessor.py:53-57 | the rewritten `readlines()` of the source, written one after the other; the two rows below state what it reads back as |
| Preprocessor.CompileBodyLines | shellpython/preprocessor.py:53-57 | the compiled body reads back as the rewritten source lines, one for one; no backtick survives and no newline is added or lost |
| Preprocessor.CompileBodyUnchanged | shellpython/preprocessor.py:53-57 | a source without backticks compiles to itself |
| Preprocessor.WithExecBit | shellpython/preprocessor.py:73-74 | `mode \| S_IEXEC` sets the owner execute bit and leaves every other bit as it was |
| Preprocessor.WithExecBitIdempotent | shellpython/preprocessor.py:73-74 | adding the execute bit twice is adding it once; it changes nothing exactly when the bit is already set |
| Preprocessor.CreatedMode | shellpython/preprocessor.py:70-73 | the `st_mode` of a file just created by `open(path, 'w')`: a regular file with the bits of 0o666 the umask allows |
| Preprocessor.CompiledMode | shellpython/preprocessor.py:70-74 | a compiled file's permissions: the owner may execute it, read/write bits are what the umask allows from 0o666, and group and others gain no execute bit |
| Preprocessor.CachePath | shellpython/preprocessor.py:61 | every compiled file lies under the per-user cache tree |
| Preprocessor.PreprocessFile | shellpython/preprocessor.py:42-77 | the output path is the cache path of the renamed source. The text is the chosen header followed by the compiled body, so nothing after the header has a backtick, and the owner execute bit is set |
| Preprocessor.PreprocessFileLayout | shellpython/preprocessor.py:42-71 | with a header that ends its last line, the compiled file reads back as the header's lines followed by the rewritten source lines |
| Preprocessor.SpyFilesIn | shellpython/preprocessor.py:26-28 | the files compiled from one directory are exactly its names matching the pattern, joined onto the directory |
| Preprocessor.WalkDir | shellpython/preprocessor.py:24-25 | the directory `os.walk` reports for an entry: the top with the subdirectory names below it joined on one by one |
| Preprocessor.SpyFiles | shellpython/preprocessor.py:24-28 | the files compiled from a walk are exactly the matching files of its directories |
| Preprocessor.SpyFilesExactly | shellpython/preprocessor.py:24-29 | a path is compiled exactly when some walked directory lists a matching name that joins to it |
| Preprocessor.CompileAll | shellpython/preprocessor.py:29 | each selected file is compiled as a non-root script, in order |
| Preprocessor.PreprocessModule | shellpython/preprocessor.py:23-31 | one output per selected file, each with `header.tpl` first; the returned path is the cache path of the package |
| Preprocessor.WalkDirComponents | shellpython/preprocessor.py:24-28 | descending through plain names appends them to the absolute components of the top |
| Preprocessor.ModuleHoldsItsFiles | shellpython/preprocessor.py:23-31 | every compiled file of a package lands below the returned path under the same names, with ".spy" turned into ".py" |
| Core.IsParamSet | shellpython/core.py:67-68 | a flag is set exactly when its letter occurs in the parameter string |
| Core.PrintStdout | shellpython/core.py:263 | stdout is printed exactly with the 'p' flag or `PRINT_STDOUT_ALWAYS` |
| Core.PrintStderrAsWritten | shellpython/core.py:266 | the stderr condition as written fails exactly when 'e' is absent and the setting is missing, and is true exactly with 'e' or the setting on |
| Core.ShippedConfigFails | shellpython/core.py:266 | with the configuration as shipped, every command without 'e' reaches the missing setting |
| Core.ShippedConfigFailsOnEcho | shellpython/tests/test_unix_core.py:24-25 | the plain `_create_result('echo 1', '')` of the tests is one such command |
| Core.PrintStderr | shellpython/core.py:266 | the corrected condition: stderr is printed exactly with 'e' or the setting on |
| Core.PrintStderrRepairs | shellpython/core.py:266 | the corrected condition agrees with the written one wherever that one succeeds, and fails nowhere |
| Core.Stdout | shellpython/core.py:193-197 | `result.stdout`: the stdout lines joined by the separator; Core.CollectedText and Core.JoinChopAll state what it gives back |
| Core.Stderr | shellpython/core.py:199-203 | `result.stderr`, the same join over the stderr lines |
| Core.Str | shellpython/core.py:225-226 | `str(result)` is `result.stdout`, the joined stdout lines |
| Core.Equal | shellpython/core.py:231-232 | `__eq__` compares the two `__str__` forms; Core.EqualIffSameLines states it in terms of lines |
| Core.EqualsText | shellpython/core.py:231-232 | `result == text` for a plain string compares `result.stdout` with the text; Core.EchoScenario shows `echo 1` compares equal to "1" |
| Core.Truthy | shellpython/core.py:234-237 | `bool(result)` is `returncode == 0`; Core.CreateResultTruthy relates it to the process |
| Core.StripLine | shellpython/core.py:218 | stripping returns a prefix not ending in a newline; only newlines were removed |
| Core.AddStdoutLine | shellpython/core.py:217-219 | one more stdout line, exactly `line.rstrip(os.linesep)`; the earlier lines, stderr and the return code are unchanged |
| Core.AddStderrLine | shellpython/core.py:221-223 | one more stderr line, exactly `line.rstrip(os.linesep)`; stdout and the return code are unchanged |
| Core.AddStdoutLineText | shellpython/core.py:193-219 | `result.stdout` grows by a separator and the stripped line, or starts with the line |
| Core.AddStderrLineText | shellpython/core.py:199-223 | `result.stderr` grows by a separator and the stripped line, or starts with the line |
| Core.CollectStdout | shellpython/core.py:249-253 | collecting adds one stdout line per line read and changes nothing else |
| Core.CollectStderr | shellpython/core.py:255-259 | collecting adds one stderr line per line read and changes nothing else |
| Core.StripIsChop | shellpython/core.py:218 | on a line from `readline`, `rstrip(os.linesep)` removes exactly its final newline |
| Core.CollectStdoutLines | shellpython/core.py:249-253 | the collected stdout lines are the lines read, each without its newline |
| Core.CollectStderrLines | shellpython/core.py:255-259 | the collected stderr lines are the lines read, each without its newline |
| Core.JoinChopAll | shellpython/core.py:197 | joining the newline-less lines gives the text back, less one final newline |
| Core.OutputLines | shellpython/core.py:249-253 | no stored line contains a newline |
| Core.CollectedText | shellpython/core.py:193-197 | `result.stdout` of collected output is that output without one final newline |
| Core.EqualIffSameLines | shellpython/core.py:231-232 | two results are equal exactly when their stdout lines are, except that no lines equals one empty line |
| Core.BlankIff | shellpython/core.py:197 | the joined text is empty exactly for no lines or one empty line |
| Core.EmptyEqualsBlank | shellpython/core.py:231-232 | results with no lines and with one empty line compare equal, whatever their return codes |
| Core.Collect | shellpython/core.py:247-272 | the result holds the lines of both streams and the return code |
| Core.Echo | shellpython/core.py:263-270 | stdout is printed exactly when asked for and non-empty, then stderr under the same rule; nothing else is printed; stderr by the corrected condition |
| Core.CreateResult | shellpython/core.py:240-277 | raises exactly for a non-zero return code without 'n', with the command in the error. The result, returned or carried by the error, holds the return code and the lines of both streams; stderr by the corrected condition |
| Core.CreateResultPrints | shellpython/core.py:263-270 | in terms of the process output: stdout is printed once, without one final newline, exactly when asked for and the output is more than a lone newline; stderr follows the same rule; at most these two prints, stdout first; stderr by the corrected condition |
| Core.CreateResultTruthy | shellpython/core.py:234-277 | the result is truthy exactly when the command succeeded; a returned falsy result needs 'n' |
| Core.EchoScenario | shellpython/tests/test_unix_core.py:24-36 | `echo 1` without flags returns the single line "1" with return code 0, compares equal to "1", is truthy and prints nothing, with `PRINT_STDERR_ALWAYS` defined as off (Core.Configured), where the written and corrected conditions agree |
| Core.EchoPrintScenario | shellpython/tests/test_unix_core.py:51-57 | `echo 1` with 'p' prints "1" once, with `PRINT_STDERR_ALWAYS` defined as off (Core.Configured), where the written and corrected conditions agree |
| Core.FailureScenario | shellpython/tests/test_unix_core.py:59-65 | a failing command with 'e' raises, carrying the return code and the stderr lines, with `PRINT_STDERR_ALWAYS` defined as off (Core.Configured), where the written and corrected conditions agree |
| Core.CodeText | shellpython/core.py:89-91 | the `{code}` field: "None" for a return code not yet set, otherwise `str(code)` by Strings.IntToString |
| Core.ErrorMessage | shellpython/core.py:84-91 | the message starts with the command quoted in "Command '...' failed with error code " |
| Core.MessageParts | shellpython/core.py:89-91 | the message is the head, the rendered code, and the tail with the stderr text |
| Core.ErrorMessageShowsCode | shellpython/core.py:89-91 | for the same command and stderr, messages are equal exactly when the return codes are |
| Core.ErrorMessageExample | shellpython/core.py:89-91 | the message of a command `false` with code 1 and stderr "boom" is the literal "Command 'false' failed with error code 1, stderr output is boom" |
| Core.SReadLine | shellpython/core.py:109-124 | it stops exactly at end of input. Otherwise the line has no newline and is followed in the input by one separator, or by nothing when it is the rest of the input, so it runs up to the first newline or to the end; the rest stays unread, and the line is printed exactly when the stream echoes |
| Core.SWriteLine | shellpython/core.py:126-132 | the text and a separator are appended to what was written; nothing else changes |
| Core.WriteThenRead | shellpython/core.py:109-132 | round trip: a newline-free line written with `swriteline` is read back unchanged by `sreadline` |
| Core.Drain | shellpython/core.py:101-107 | `for line in stream`: `next` calls `sreadline` until StopIteration, collecting the lines and the prints; Core.DrainMatchesResult states what it yields |
| Core.DrainMatchesResult | shellpython/core.py:101-124 | iterating a stream yields the lines a `Result` collects from the same output, each printed when echoing is on |
| Core.CreateInteractiveResult | shellpython/core.py:143-153 | the streams read the process output, stdout echoes with 'p' or `PRINT_STDOUT_ALWAYS`, stderr by the corrected condition, stdin never echoes |
| Core.InteractiveTruthy | shellpython/core.py:169-172 | `bool(interactive_result)` is `returncode == 0` |
| Core.Exe | shellpython/core.py:42-64 | interactive exactly with 'i'. With `PRINT_ALL_COMMANDS` the command line is printed first, then whatever `_create_result` prints; stderr by the corrected condition |
| Core.ExeAnnounces | shellpython/core.py:55-59 | with `PRINT_ALL_COMMANDS` the first print is ">>> " and the command |
| Core.InteractiveOneLine | shellpython/tests/test_unix_core.py:88-106 | `exe(cmd, 'i')` on one line of output prints nothing, reads that line (echoed with 'p'), then stops, with `PRINT_STDERR_ALWAYS` defined as off (Core.Configured), where the written and corrected conditions agree |
| Core.AnnounceOnly | shellpython/tests/test_unix_core.py:108-114 | with only `PRINT_ALL_COMMANDS` on and no flags, the command line is the only print |
| Locator.LocateSpyFile | shellpython/locator.py:22-35 | None exactly when no root holds `<name>.spy`; otherwise an existing candidate under some root |
| Locator.LocateSpyModule | shellpython/locator.py:5-19 | None exactly when no root holds the directory with `__init__.spy`; otherwise such a directory under some root |
| Locator.LocateSpyFileFirst | shellpython/locator.py:29-33 | the first root, in search order, that holds the file wins |
| Locator.LocateSpyModuleFirst | shellpython/locator.py:12-17 | the first root that holds the package wins |
| Locator.LocateSpyFileSkips | shellpython/locator.py:29-33 | a root without the file is passed over |
| Locator.LocateSpyModuleSkips | shellpython/locator.py:12-17 | a root whose directory is missing or lacks `__init__.spy` is passed over |
| Locator.FindSpyFile | shellpython/locator.py:22-35 | the loop over the search path returns what the recursive search describes |
| Locator.FindSpyModule | shellpython/locator.py:5-19 | the loop over the search path returns what the recursive search describes |
| Locator.SkipScenario | shellpython/locator.py:12-17 | a directory without `__init__.spy` under the first root does not stop the search; the package under the second root is found |
| Locator.NoFileScenario | shellpython/locator.py:29-35 | with no `m.spy` under any root the file search returns None |

## Left out

- **Colour output.** colorama and `COLORAMA_ENABLED` (core.py lines 17-18, 50-53, 56-57, 85-88, 119-122, 152, 267-268) are left out because they only wrap printed text in escape codes. Colour is taken to be off.
- **Decoding.** The Python 3 decode and encode steps (core.py lines 111-112, 128-129, 250-251, 256-257) are left out because text is taken as already decoded. There is no encoding model.
- **Processes.** Process creation, `wait` and the pipes (`subprocess.Popen`, core.py lines 241-245, 261, 280-285) are left out because a process is given by its output and return code. `InteractiveResult.returncode`, which waits for the process, becomes a plain field.
- **Delegating methods.** `InteractiveResult.sreadline`, `swriteline` and `__iter__`, and the `stdout_lines`/`stderr_lines` properties of `Result`, only delegate. The model reads the stream or field directly.
- **`Stream.next`.** `Stream.next` and `__iter__` are modelled by `Core.Drain`, which reads until StopIteration.
- **Filesystem effects of `preprocess_file`.**
  - Removing an old output and creating directories with mode 0700 (preprocessor.py lines 63-68) are left out.
  - Writing the file becomes an `Output` value.
  - The header templates live next to the compiler and are given as a function from name to text.
- **`os.walk`.** It is given as a list of entries; that the list matches a real directory tree is not modelled.
- **Header templates.** They are not part of this model. The emitted call keeps any flag letters in front of `exe`, for example `pexe(...)`, and passes a single argument. The templates must bind those names.
- Core.CreateResult: decides the stderr print by the corrected condition Core.PrintStderr from the Findings table. With the shipped settings and no 'e' flag, the code as written raises AttributeError instead (Core.ShippedConfigFails).
- Core.Echo: uses the corrected stderr condition, for the same reason.
- Core.CreateResultPrints: uses the corrected stderr condition, for the same reason.
- Core.Exe: uses the corrected stderr condition in both of its branches, for the same reason.
- Core.CreateInteractiveResult: uses the corrected stderr condition (core.py line 151), for the same reason.
- **Windows paths.** Drive letters (preprocessor.py line 37) are left out; paths are POSIX.
- **Machine inputs.** `getpass.getuser()` and `tempfile.gettempdir()` are parameters.
- **Surrounding files.** The import hook (`shellpython/importer.py`, `shellpy/__init__.py`), the command-line runner (`shellpython/shellpy.py`) and `shellpython/helpers.py` are not part of this model. The runner's only effect modelled here is the settings it can switch on, as fields of `Core.Config`.

## Findings

| source | as written | input that shows it | evidently intended | confidence | as-written member | corrected member |
|---|---|---|---|---|---|---|
| shellpython/core.py:266 | the stderr condition (also at line 151) reads `config.PRINT_STDERR_ALWAYS`, which `shellpython/config.py` never defines | `_create_result('echo 1', '')` with the shipped configuration: 'e' is absent, so the lookup raises AttributeError before the result is returned | a missing setting counts as off, like `PRINT_STDOUT_ALWAYS` | medium, not executed: `shellpython/shellpy.py` line 46 assigns the setting under `-vv`, and the runner also calls `config.dumps()`, which the shipped config module lacks, so that module may be out of date | Core.PrintStderrAsWritten, Core.ShippedConfigFails | Core.PrintStderr, Core.PrintStderrRepairs |
