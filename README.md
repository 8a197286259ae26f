# Docker manager: command composition and exit-status parsing

This project models the string logic of the `Docker` manager class in
`docker/manager.py`. The class runs commands in a container through `docker exec`.

- **Arguments.** It resolves a working directory, which is either anchored
  (absolute or `~/`-relative) or is made relative to the home directory.
- **Command line.** It composes the `docker exec -i <name> bash -c '…'` line.
  Every `'` of the user's command becomes `"`. The command runs after
  `cd <wd> &&`, with ` 2>&1` when outputs are combined. It is followed by
  `echo "--return-$?--"`.
- **Exit status.** It reads the exit status back from the output with the
  pattern `(?:\\n)?--return-(\d+)--$`. It then removes the matched text and one
  final newline.
- **Helpers built on `run`.**
  - `read_file` uses `cat`.
  - `create_file` uses `echo … >>`.
  - `file_exist` and `directory_exist` use `test -f` and `test -d`.
  - `list_files` and `list_directories` split an `ls -m` listing at `", "`,
    join each entry onto a path (like `os.path.join`) and keep the entries that
    pass the tests.

The modules follow the layers of the code:

- `Text` models the Python `str` operations used here:
  - `replace` of one character;
  - `replace(pat, '')`;
  - `split(', ')`;
  - `int(...)` and `str(n)` on decimal digits;
  - a filter that keeps order.
- `Paths` models `_get_working_directory` and the POSIX two-argument `os.path.join`.
- `Process` holds what `execute` (in `docker/helpers.py`) returns: an `out` text, a
  `return_code` and a `succeeded` flag.
  - `Outcome` is that record as a value.
  - `ProcessResult` is a class whose fields `run` updates in place.
  - `Executor` is the type of `execute` itself.
  - `docker/helpers.py` is not part of this model. `execute` is a parameter of
    every operation: a total function from the command line to its outcome.
- `Sentinel` models the regular expression by hand and the parse step of `run`.
  - `MatchAt` tries the pattern at one index. `\\n` is a literal backslash
    followed by `n`. Python's `$` matches at the end or before one final
    newline. `\d+` is greedy.
  - `SearchFrom` is `re.search`, the leftmost match.
  - `TrailingSentinel` is an independent definition anchored at the end of
    the text. `SearchIsTrailing` proves the two agree on every text.
- `Manager` holds the manager's settings as a value (`Docker`) and the
  operations. The methods do what the Python methods do. Each one is proved
  against a function that defines its result: `RunOutcome`, `ReportsFile`,
  `ReportsDirectory`, `FileText`, `FilesAmong` and `DirectoriesAmong`.

The model follows the code where the code and its docstrings part ways. The
regular expression and `str.replace` behave as Python defines them. This
includes the case, shown below, where `replace` builds a new copy of the
sentinel. `read_file` returns `None` when `execute` reports failure, not when
`cat` does; see "## Left out". `list_directories("~")` lists one directory and
tests the entries in another (`Paths.TildeArgumentMismatch`).

## Model

| member | source | states |
|---|---|---|
| Paths.WorkingDirectory | docker/manager.py:224-236 | The result always starts with `/` or `~/`. It equals the argument exactly when the argument starts with `/` or `~/`. Otherwise it is `~/` followed by the argument. |
| Paths.WorkingDirectoryIdempotent | docker/manager.py:234-236 | Resolving a resolved path changes nothing. |
| Paths.EmptyPathIsHome | docker/manager.py:234-236 | The empty path resolves to `~/`. |
| Paths.PathJoin | docker/manager.py:146 | POSIX `os.path.join(a, b)`. An absolute `b` replaces `a`. Otherwise the result starts with `a` and ends with `b`, with one `/` between them unless `a` is empty or ends in `/`. |
| Paths.JoinOntoResolved | docker/manager.py:143-147 | Joining an entry onto a resolved directory gives a path that the resolver inside `file_exist` leaves unchanged. |
| Paths.JoinThenResolve | docker/manager.py:162-165 | For every non-empty argument other than `~`, resolving `join(path, e)` gives `join(resolved path, e)`. So `list_directories`, which joins onto the unresolved argument, tests the entries of the directory it listed. (For the empty argument, an entry starting with `~/` escapes this, and the equation fails.) |
| Paths.TildeArgumentMismatch | docker/manager.py:162-165 | For the argument `~`, `ls` runs in `~/~`, but each entry `e` that is not absolute is tested as `~/e`, in the home directory. That differs from `~/~/e`, the entry in the listed directory. |
| Text.ReplaceChar | docker/manager.py:67 | `command.replace("'", '"')`. The length is kept, each character is mapped on its own, and no `'` is left. |
| Text.RemoveAll | docker/manager.py:81 | `replace(pat, '')` never lengthens the text. |
| Text.RemoveAllShrinks | docker/manager.py:81 | When the pattern occurs, the text shrinks by at least the pattern's length. |
| Text.RemoveAllKeepsPrefix | docker/manager.py:81 | A prefix in which no occurrence starts passes through `replace` unchanged. |
| Text.Split | docker/manager.py:145 | `split(', ')` gives at least one piece, and joining the pieces with the separator gives back the text. |
| Text.SplitPiecesFree | docker/manager.py:145 | No piece contains the separator. |
| Text.DigitRun | docker/manager.py:78 | The greedy `\d+`: every character in the run is a digit, and the character after it is not. |
| Text.NatToString | docker/manager.py:72 | The status bash prints: digits without a leading zero, which `int(...)` reads back as the number. |
| Text.FilterIsSubsequence | docker/manager.py:141-150 | What the loops keep is a subsequence of the listing in the listing's order. |
| Text.FilterMembers | docker/manager.py:147 | An element is kept exactly when it is listed and passes the test. |
| Sentinel.TailAt | docker/manager.py:78 | Where `--return-(\d+)--$` matches at an index, the digits are non-empty and the match ends inside the text. |
| Sentinel.TailAtBacktracking | docker/manager.py:78 | Backtracking into `\d+` finds no other match: any digit group that fits is the longest run. |
| Sentinel.MatchAt | docker/manager.py:78 | A match found at `i` starts at `i`, ends inside the text and captures a non-empty string of digits. |
| Sentinel.SearchFrom | docker/manager.py:78 | A reported match is the match at its start, which is at or after the starting index, and no match starts between the two. When nothing is reported, no match starts at or after the starting index. |
| Sentinel.Search | docker/manager.py:78 | `re.search` from index 0 reports the match at the leftmost index where the pattern matches, and reports nothing exactly when it matches at no index. |
| Sentinel.TrailingMarker | docker/manager.py:78 | The tail-anchored reference: a position it reports leaves room for `--return-`, at least one digit and `--` before the place where `$` matches. |
| Sentinel.MatchingIsTrailingMarker | docker/manager.py:78 | Wherever the pattern without its optional group matches, that position is the trailing marker. |
| Sentinel.MatchesAroundTrailing | docker/manager.py:78 | No match starts before the trailing sentinel's start, and the match at that start is the trailing sentinel. |
| Sentinel.SearchIsTrailing | docker/manager.py:78 | The leftmost search equals the tail-anchored reference on every text, including texts with no sentinel. |
| Sentinel.DropFinalNewline | docker/manager.py:82-83 | A final `\n` is removed when present, and the text is left alone otherwise. |
| Sentinel.ReturnCodeOf | docker/manager.py:79-80 | The code `execute` reported when the pattern does not match, and otherwise the captured number, which is never negative. |
| Sentinel.OutputOf | docker/manager.py:81-83 | `out` unchanged when the pattern does not match. Otherwise the cleaned `out` is shorter than the original by at least the matched text. |
| Sentinel.ParseReturnCode | docker/manager.py:78-84 | `succeeded` is kept and `out` never grows. With no match, the outcome is returned exactly as `execute` gave it. |
| Sentinel.ParseReadsTrailingSentinel | docker/manager.py:78-83 | With no trailing sentinel, nothing changes. With one, the return code is its number, `succeeded` is kept, and `out` loses at least the matched text. |
| Sentinel.RecoversStatus | docker/manager.py:78-80 | An output ending in `--return-N--` yields return code N, with or without one final newline and a `\n` pair in front. |
| Sentinel.ParseWith | docker/manager.py:79-83 | Once the search found a match, the parsed outcome is the number it captured, with every copy of the matched text removed and then one final newline dropped. |
| Sentinel.RoundTrip | docker/manager.py:72-83 | For command output `s` free of `--return-`, appending the sentinel for status `n` is read back as `n`. `out` is `s` again, without a `\n` pair right before the sentinel, and without one final newline of `s` when echo's own newline is missing. |
| Sentinel.InjectedParse | docker/manager.py:78-83 | The parse of a `--return-`-free text with the sentinel appended, for any non-empty digit string. |
| Sentinel.InjectedRemoval | docker/manager.py:81 | In that case `replace` removes only the appended sentinel. |
| Sentinel.RemovalCanRebuildSentinel | docker/manager.py:81-83 | A counterexample: on the output `-` + S + `-return-5--` + S, with S = `--return-5--`, the search matches the final S. `replace` then leaves exactly S behind, so the matched text still occurs in the new `out`. |
| Manager.ExecCommand | docker/manager.py:71-75 | The line starts with `docker exec -i <name> bash -c 'cd <resolved wd> && ` (the `ExecPrefix` and then the inner command). It ends with ` ;  echo "--return-$?--"'` (`EchoStatus` and the closing quote), preceded by ` 2>&1` when outputs are combined. |
| Manager.InnerCommand | docker/manager.py:67-70 | The inner command is `cd <wd> && ` followed by the user command, in which every `'` is now `"` and every other character is unchanged. ` 2>&1` comes last when outputs are combined. |
| Manager.CombineOutputsSuffix | docker/manager.py:69-70 | ` 2>&1` is the only difference that `combine_outputs` makes. |
| Manager.PayloadQuotes | docker/manager.py:66-74 | The text inside the outer quotes contains a `'` exactly when the resolved working directory does. None of the user command's quotes can reach bash. |
| Manager.PayloadIsOneQuotedWord | docker/manager.py:71-75 | With no `'` in the container name or the directory, the exec line holds exactly two `'`, and the composed command stands between them. |
| Manager.Run | docker/manager.py:66-84 | Returns a fresh result object whose fields are the outcome of `execute` on the composed line, once the status has been parsed out. |
| Manager.RunResolvesOnce | docker/manager.py:66 | Passing an already resolved directory to `run` gives the same command line. |
| Manager.FileExist | docker/manager.py:113-121 | True exactly when `run("test -f " + resolved path)` reports code 0. |
| Manager.DirectoryExist | docker/manager.py:123-131 | True exactly when `run("test -d " + resolved path)` reports code 0. |
| Manager.ReadFile | docker/manager.py:86-98 | `out` of `run("cat " + resolved path)` when it succeeded, and nothing otherwise. |
| Manager.CreateFile | docker/manager.py:100-111 | The result of `run('echo "<content>" >> ' + resolved path)`. |
| Manager.FileExistReadsStatus | docker/manager.py:121 | When `test -f` prints text without a sentinel, followed by the echoed status `n`, `file_exist` is true exactly when `n` is 0, whatever code `execute` reported. |
| Manager.DirectoryExistReadsStatus | docker/manager.py:131 | The same round trip for `test -d` and `directory_exist`. |
| Manager.ReadFileRoundTrip | docker/manager.py:94-98 | `read_file` gives back what `cat` printed (except a trailing `\n` pair) when the command succeeded, and nothing otherwise. |
| Manager.AppendCommandQuoting | docker/manager.py:111 | The `'` in the content or path of `create_file` reach bash as `"`. |
| Manager.FileListing | docker/manager.py:145 | The `ls -m` output of the resolved path, cut at `, `, has at least one entry. |
| Manager.DirectoryListing | docker/manager.py:164 | The same for `ls -dm */` run in the resolved directory. |
| Manager.IsPlainFileAt | docker/manager.py:147 | `file_exist(p) and not directory_exist(p)`, with the directory test made only after the file test passed. |
| Manager.ListFiles | docker/manager.py:133-150 | The result is the listed entries whose join onto the resolved path is a file and not a directory, in listing order. |
| Manager.KeepPlainFiles | docker/manager.py:145-150 | The loop appends an entry exactly when its test passes. Its invariant is that the result filters the prefix of entries seen so far. |
| Manager.ListDirectories | docker/manager.py:152-172 | The result is the listed entries whose join onto the unresolved argument is a directory, trimmed when the slash is not wanted. |
| Manager.KeepDirectories | docker/manager.py:164-172 | The loop keeps the entries that pass the directory test, each one whole or without its last character. Its invariant is that the result is the filtered prefix so far. |
| Manager.DropLast | docker/manager.py:170 | `file_path[:-1]`: a non-empty entry is the result followed by its last character, and the empty entry stays empty. |
| Manager.DropEach | docker/manager.py:170 | `file_path[:-1]` for each kept entry. The length is kept, and each entry loses its last character. |
| Manager.ListFilesTestsJoinedPath | docker/manager.py:146-147 | The `test` commands of `list_files` run on `join(resolved path, entry)` itself. |
| Manager.FilesAmongIsSubsequence | docker/manager.py:141-150 | `list_files` returns a subsequence of the listing in the listing's order. |
| Manager.FilesAmongMembers | docker/manager.py:146-148 | An entry is returned by `list_files` exactly when it is listed, its join is a file, and it is not a directory. |
| Manager.DirectoriesAmongIsSubsequence | docker/manager.py:160-172 | `list_directories` (slash kept) returns a subsequence of the listing in the listing's order. |
| Manager.DirectoriesAmongMembers | docker/manager.py:165-168 | An entry is returned exactly when it is listed and its join onto the unresolved argument is a directory. |
| Manager.TrailingSlashDropped | docker/manager.py:167-170 | Without the trailing slash, the same entries are kept and each one loses exactly its last character. |

## Left out

- Sentinel.ParseReturnCode: it does not promise that the matched text no longer occurs in `out` after `replace`. That is false, because removing copies can splice a new one together. `Sentinel.RemovalCanRebuildSentinel` gives an output where this happens. What is proved instead is that `out` never grows, that it shrinks by at least the matched text, and that for command output free of `--return-` the parse gives that output back (`Sentinel.RoundTrip`).
- Manager.ReadFile: the model does not promise `read_file`'s documented "None if the file does not exist". `None` follows only the `succeeded` flag of `execute`. The parse never changes that flag, and the `bash -c` command ends with `echo`, so a failing `cat` with `succeeded` set still gives back its output (`Manager.ReadFileRoundTrip` holds for every status `n`). The docstring holds only if `docker/helpers.py` sets `succeeded` from the exit status printed inside the container. That file is not part of this model.
- `execute` and `ProcessResult` are in `docker/helpers.py`, which is not part of this model. `execute` is an opaque total function from the command line to an outcome. How `succeeded` relates to the return code is decided there, so the two are independent here.
- `execute` is a function, so two calls with the same command line give the same outcome. The model does not capture a container whose state changes between the calls of `list_files`.
- The behaviour of bash, `ls`, `test`, `cat` and `echo` inside the container is not modelled. Only the command strings and the parsing of their text are. Shell quoting of `'` in the working directory, which the source does not neutralise, is stated (`Manager.PayloadQuotes`) but its effect on bash is not modelled.
- `\d` is modelled as the ASCII digits `0`-`9`. Python's `\d` on `str` also matches other Unicode decimal digits.
- `start`, `stop`, `__enter__`, `__exit__` and `wrap` (docker/manager.py:44-50, 174-222) are left out. They are the container lifecycle: subprocess calls, `sleep(2)`, `DockerUnavailableError` and a decorator that injects keyword arguments. None of them holds string logic.
- `__init__` is left out. Its random `uuid.uuid4()` container name and its defaults are replaced by a `Docker` value passed in. Logging is left out.
- The list builders keep their `for` loops. Each loop body is one call to a helper method (`Manager.PlainFileEntry`, `Manager.DirectoryEntry`) that makes the tests for one entry.
- `split` is modelled only for a non-empty separator, which is all the source uses (`', '`).
