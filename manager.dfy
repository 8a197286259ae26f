/** The `Docker` manager of docker/manager.py: how it composes the
    `docker exec` command line for `run`, how it reads the exit status back,
    and the file and directory helpers built on `run`.

    The host side of `execute` (the Docker CLI, bash and the tools run inside
    the container) is the oracle `execute: Executor`; every operation takes it
    as a parameter and calls it once per `run`. */
module Manager {
  import opened Wrappers
  import opened Text
  import opened Paths
  import opened Process
  import opened Sentinel

  /** The manager's settings. None of them is changed by the operations
      modelled here; the container name is generated once at construction. */
  datatype Docker = Docker(
    containerName: string,
    image: string,
    timeout: int,
    privilege: bool,
    combineOutputs: bool)

  /** Redirect that `combine_outputs` appends. */
  const MergeStderr: string := " 2>&1"

  /** What bash runs after the command: print its status inside the sentinel. */
  const EchoStatus: string := " ;  echo \"--return-$?--\""

  /** `cd <wd> && <command>`, the user command with every `'` turned into `"`,
      and ` 2>&1` added when outputs are combined. */
  function InnerCommand(wd: string, command: string, combine: bool): (r: string)
    ensures StartsWith(r, "cd " + wd + " && ")
    ensures |r| == |"cd " + wd + " && "| + |command| + (if combine then |MergeStderr| else 0)
    ensures forall i :: 0 <= i < |command| ==>
              r[|"cd " + wd + " && "| + i] == (if command[i] == '\'' then '"' else command[i])
    ensures combine ==> EndsWith(r, MergeStderr)
  {
    var r := "cd " + wd + " && " + ReplaceChar(command, '\'', '"');
    if combine then r + MergeStderr else r
  }

  /** ` 2>&1` is the whole difference that `combine_outputs` makes. */
  lemma CombineOutputsSuffix(wd: string, command: string)
    ensures InnerCommand(wd, command, true) == InnerCommand(wd, command, false) + MergeStderr
  {
  }

  /** The text bash receives between the outer single quotes. */
  function Payload(d: Docker, command: string, workingDirectory: string): string {
    InnerCommand(WorkingDirectory(workingDirectory), command, d.combineOutputs) + EchoStatus
  }

  function ExecPrefix(d: Docker): string {
    "docker exec -i " + d.containerName + " bash -c '"
  }

  /** The command line `run` hands to `execute`: `docker exec` on the
      container, with `bash -c` given the payload in single quotes, the status
      echo last. */
  function ExecCommand(d: Docker, command: string, workingDirectory: string): (r: string)
    ensures StartsWith(r, "docker exec -i " + d.containerName + " bash -c 'cd " + WorkingDirectory(workingDirectory) + " && ")
    ensures EndsWith(r, EchoStatus + "'")
    ensures d.combineOutputs ==> EndsWith(r, MergeStderr + EchoStatus + "'")
  {
    ExecPrefix(d) + Payload(d, command, workingDirectory) + "'"
  }

  /** A `'` in the payload can only come from the working directory: the ones
      of the user command have all become `"`. */
  lemma PayloadQuotes(d: Docker, command: string, workingDirectory: string)
    ensures '\'' in Payload(d, command, workingDirectory) <==> '\'' in WorkingDirectory(workingDirectory)
  {
    var wd := WorkingDirectory(workingDirectory);
    var c := ReplaceChar(command, '\'', '"');
    var inner := InnerCommand(wd, command, d.combineOutputs);
    assert '\'' !in c;
    assert '\'' !in EchoStatus && '\'' !in MergeStderr && '\'' !in "cd " && '\'' !in " && ";
    if d.combineOutputs {
      assert inner == "cd " + wd + " && " + c + MergeStderr;
    } else {
      assert inner == "cd " + wd + " && " + c;
    }
  }

  /** With no `'` in the container name or the working directory, the exec
      command holds exactly two `'`, and between them stands the payload: bash
      gets the whole composed command as one single-quoted word. */
  lemma PayloadIsOneQuotedWord(d: Docker, command: string, workingDirectory: string)
    requires '\'' !in d.containerName && '\'' !in WorkingDirectory(workingDirectory)
    ensures var e := ExecCommand(d, command, workingDirectory);
            var p := |ExecPrefix(d)|;
            0 < p < |e| && e[p - 1] == '\'' && e[|e| - 1] == '\'' &&
            e[p..|e| - 1] == Payload(d, command, workingDirectory) &&
            forall i :: 0 <= i < |e| && e[i] == '\'' ==> i == p - 1 || i == |e| - 1
  {
    var e := ExecCommand(d, command, workingDirectory);
    var pre := ExecPrefix(d);
    var body := Payload(d, command, workingDirectory);
    var head := "docker exec -i " + d.containerName + " bash -c ";
    PayloadQuotes(d, command, workingDirectory);
    assert pre == head + "'";
    assert '\'' !in head;
    assert e == head + "'" + body + "'";
    assert e[|pre|..|e| - 1] == body;
  }

  /** `run(command, working_directory)` as a value: the outcome of the exec
      command after the exit status has been parsed out of it. */
  function RunOutcome(d: Docker, execute: Executor, command: string, workingDirectory: string): Outcome {
    ParseReturnCode(execute(ExecCommand(d, command, workingDirectory)))
  }

  /** `run`: composes the exec command, calls `execute` once, and then edits
      the returned result in place: the parsed return code, then the cleaned
      output. */
  method Run(d: Docker, execute: Executor, command: string, workingDirectory: string)
    returns (result: ProcessResult)
    ensures fresh(result)
    ensures result.Value() == RunOutcome(d, execute, command, workingDirectory)
  {
    var wd := WorkingDirectory(workingDirectory);
    var cmd := ReplaceChar(command, '\'', '"');
    var inner := "cd " + wd + " && " + cmd;
    if d.combineOutputs {
      inner := inner + MergeStderr;
    }
    var line := "docker exec -i " + d.containerName + " bash -c '" + inner + EchoStatus + "'";
    assert line == ExecCommand(d, command, workingDirectory);
    var o := execute(line);
    result := new ProcessResult(o);
    var found := Search(result.out);
    if found.Some? {
      var m := found.value;
      ParseWith(o, m);
      result.returnCode := DigitsValue(m.digits);
      result.out := RemoveAll(result.out, result.out[m.start..m.end]);
      if EndsWith(result.out, "\n") {
        result.out := result.out[..|result.out| - 1];
      }
    }
  }

  /** Passing a resolved directory to `run` is the same as passing the
      unresolved one; `list_directories` does the former. */
  lemma RunResolvesOnce(d: Docker, command: string, path: string)
    ensures ExecCommand(d, command, WorkingDirectory(path)) == ExecCommand(d, command, path)
  {
    WorkingDirectoryIdempotent(path);
  }

  // ----- Files and directories -----

  function TestFileCommand(path: string): string {
    "test -f " + WorkingDirectory(path)
  }

  function TestDirectoryCommand(path: string): string {
    "test -d " + WorkingDirectory(path)
  }

  function CatCommand(path: string): string {
    "cat " + WorkingDirectory(path)
  }

  /** `create_file`'s command: the content in double quotes appended to the file. */
  function AppendCommand(path: string, content: string): string {
    "echo \"" + content + "\" >> " + WorkingDirectory(path)
  }

  /** `file_exist(path)` as a value. */
  predicate ReportsFile(d: Docker, execute: Executor, path: string) {
    ReturnCodeOf(execute(ExecCommand(d, TestFileCommand(path), ""))) == 0
  }

  /** `directory_exist(path)` as a value. */
  predicate ReportsDirectory(d: Docker, execute: Executor, path: string) {
    ReturnCodeOf(execute(ExecCommand(d, TestDirectoryCommand(path), ""))) == 0
  }

  /** `read_file(path)` as a value. */
  function FileText(d: Docker, execute: Executor, path: string): Option<string> {
    var o := RunOutcome(d, execute, CatCommand(path), "");
    if o.succeeded then Some(o.out) else None
  }

  method FileExist(d: Docker, execute: Executor, path: string) returns (found: bool)
    ensures found <==> ReportsFile(d, execute, path)
  {
    var p := WorkingDirectory(path);
    var result := Run(d, execute, "test -f " + p, "");
    found := result.returnCode == 0;
  }

  method DirectoryExist(d: Docker, execute: Executor, path: string) returns (found: bool)
    ensures found <==> ReportsDirectory(d, execute, path)
  {
    var p := WorkingDirectory(path);
    var result := Run(d, execute, "test -d " + p, "");
    found := result.returnCode == 0;
  }

  method ReadFile(d: Docker, execute: Executor, path: string) returns (content: Option<string>)
    ensures content == FileText(d, execute, path)
  {
    var p := WorkingDirectory(path);
    var result := Run(d, execute, "cat " + p, "");
    if result.succeeded {
      content := Some(result.out);
    } else {
      content := None;
    }
  }

  method CreateFile(d: Docker, execute: Executor, path: string, content: string)
    returns (result: ProcessResult)
    ensures fresh(result)
    ensures result.Value() == RunOutcome(d, execute, AppendCommand(path, content), "")
  {
    var p := WorkingDirectory(path);
    result := Run(d, execute, "echo \"" + content + "\" >> " + p, "");
  }

  /** The text `execute` returns when the command printed `s` and the echo
      printed status `n` with its newline. */
  function Echoed(s: string, n: nat, rc: int, ok: bool): Outcome {
    Outcome(s + Marker + NatToString(n) + Close + "\n", rc, ok)
  }

  /** `file_exist` reads the status of `test -f` off the sentinel: true exactly
      when it is 0, whatever `execute` itself reported as the code. */
  lemma FileExistReadsStatus(d: Docker, execute: Executor, path: string, s: string, n: nat, rc: int, ok: bool)
    requires !Contains(s, Marker)
    requires execute(ExecCommand(d, TestFileCommand(path), "")) == Echoed(s, n, rc, ok)
    ensures ReportsFile(d, execute, path) <==> n == 0
  {
    RoundTrip(s, n, true, rc, ok);
  }

  lemma DirectoryExistReadsStatus(d: Docker, execute: Executor, path: string, s: string, n: nat, rc: int, ok: bool)
    requires !Contains(s, Marker)
    requires execute(ExecCommand(d, TestDirectoryCommand(path), "")) == Echoed(s, n, rc, ok)
    ensures ReportsDirectory(d, execute, path) <==> n == 0
  {
    RoundTrip(s, n, true, rc, ok);
  }

  /** `read_file` gives back what `cat` printed (a trailing `\n` pair aside)
      when the command succeeded, and nothing otherwise. */
  lemma ReadFileRoundTrip(d: Docker, execute: Executor, path: string, text: string, n: nat, rc: int, ok: bool)
    requires !Contains(text, Marker)
    requires execute(ExecCommand(d, CatCommand(path), "")) == Echoed(text, n, rc, ok)
    ensures FileText(d, execute, path) == (if ok then Some(WithoutEscapedNewline(text)) else None)
  {
    RoundTrip(text, n, true, rc, ok);
  }

  /** The `'` of a path or of the content that `read_file`, `file_exist` or
      `create_file` put into the command reach bash as `"`. */
  lemma AppendCommandQuoting(path: string, content: string)
    ensures var inner := InnerCommand(WorkingDirectory(""), AppendCommand(path, content), false);
            '\'' !in inner[|"cd ~/ && "|..]
  {
    var c := AppendCommand(path, content);
    var inner := InnerCommand(WorkingDirectory(""), c, false);
    EmptyPathIsHome();
    assert inner[|"cd ~/ && "|..] == ReplaceChar(c, '\'', '"');
  }

  // ----- Listings -----

  /** The entries of `ls -m <resolved path>`, cut at `, `. */
  function FileListing(d: Docker, execute: Executor, path: string): (r: seq<string>)
    ensures |r| >= 1
  {
    Split(RunOutcome(d, execute, "ls -m " + WorkingDirectory(path), "").out, ", ")
  }

  // The entries of `ls -dm */` run in the resolved directory, cut at `, `.
  function DirectoryListing(d: Docker, execute: Executor, path: string): (r: seq<string>)
    ensures |r| >= 1
  {
    Split(RunOutcome(d, execute, "ls -dm */", WorkingDirectory(path)).out, ", ")
  }

  /** An entry `list_files` keeps: a file and not a directory. */
  predicate IsPlainFile(d: Docker, execute: Executor, fullPath: string) {
    ReportsFile(d, execute, fullPath) && !ReportsDirectory(d, execute, fullPath)
  }

  /** The entries of `entries` whose join onto `root` is a plain file, in order. */
  function FilesAmong(d: Docker, execute: Executor, root: string, entries: seq<string>): seq<string> {
    Filter(e => IsPlainFile(d, execute, PathJoin(root, e)), entries)
  }

  /** `file_path[:-1]`: the last character dropped (nothing to drop from ""). */
  function DropLast(e: string): (r: string)
    ensures |e| > 0 ==> r + [e[|e| - 1]] == e
    ensures |e| == 0 ==> r == ""
  {
    if |e| == 0 then "" else e[..|e| - 1]
  }

  /** Every entry with its last character dropped. */
  function DropEach(entries: seq<string>): (r: seq<string>)
    ensures |r| == |entries|
    ensures forall i :: 0 <= i < |entries| ==> r[i] == DropLast(entries[i])
    decreases |entries|
  {
    if entries == [] then []
    else DropEach(entries[..|entries| - 1]) + [DropLast(entries[|entries| - 1])]
  }

  /** Dropping from one more entry adds one dropped entry at the end. */
  lemma DropEachSnoc(names: seq<string>, e: string)
    ensures DropEach(names + [e]) == DropEach(names) + [DropLast(e)]
  {
    assert (names + [e])[..|names|] == names;
  }

  /** The entries whose join onto `path` is a directory, in order, with the
      last character dropped unless `slash` is set. */
  function DirectoriesAmong(d: Docker, execute: Executor, path: string, entries: seq<string>, slash: bool): seq<string> {
    var kept := Filter(e => ReportsDirectory(d, execute, PathJoin(path, e)), entries);
    if slash then kept else DropEach(kept)
  }

  /** `file_exist(full_path) and not directory_exist(full_path)`, with the
      directory test made only when the file test passed. */
  method IsPlainFileAt(d: Docker, execute: Executor, fullPath: string) returns (plain: bool)
    ensures plain == IsPlainFile(d, execute, fullPath)
  {
    plain := false;
    var isFile := FileExist(d, execute, fullPath);
    if isFile {
      var isDirectory := DirectoryExist(d, execute, fullPath);
      plain := !isDirectory;
    }
  }

  /** `list_files`: list the resolved directory, then keep the plain files. */
  method ListFiles(d: Docker, execute: Executor, path: string) returns (result: seq<string>)
    ensures result == FilesAmong(d, execute, WorkingDirectory(path), FileListing(d, execute, path))
  {
    var root := WorkingDirectory(path);
    var listing := Run(d, execute, "ls -m " + root, "");
    result := KeepPlainFiles(d, execute, root, Split(listing.out, ", "), e => IsPlainFile(d, execute, PathJoin(root, e)));
  }

  /** The loop of `list_files` over the listed entries; `keep` names the test
      it makes on each entry. */
  method KeepPlainFiles(d: Docker, execute: Executor, root: string, entries: seq<string>, ghost keep: string -> bool)
    returns (result: seq<string>)
    requires forall e {:trigger IsPlainFile(d, execute, PathJoin(root, e))} ::
               keep(e) == IsPlainFile(d, execute, PathJoin(root, e))
    ensures result == Filter(keep, entries)
  {
    result := [];
    for i := 0 to |entries|
      invariant result == Filter(keep, entries[..i])
    {
      var plain := PlainFileEntry(d, execute, root, entries[i], keep);
      FilterStep(keep, entries, i);
      if plain {
        result := result + [entries[i]];
      }
    }
    assert entries[..|entries|] == entries;
  }

  /** One step of the loop of `list_files`. */
  method PlainFileEntry(d: Docker, execute: Executor, root: string, e: string, ghost keep: string -> bool)
    returns (plain: bool)
    requires forall e {:trigger IsPlainFile(d, execute, PathJoin(root, e))} ::
               keep(e) == IsPlainFile(d, execute, PathJoin(root, e))
    ensures plain == keep(e)
  {
    plain := IsPlainFileAt(d, execute, PathJoin(root, e));
  }

  /** `list_directories`: list the sub-directories in the resolved
      directory, then keep those that test as directories. */
  method ListDirectories(d: Docker, execute: Executor, path: string, includeTrailingSlash: bool)
    returns (result: seq<string>)
    ensures result == DirectoriesAmong(d, execute, path, DirectoryListing(d, execute, path), includeTrailingSlash)
  {
    var workingDirectory := WorkingDirectory(path);
    var listing := Run(d, execute, "ls -dm */", workingDirectory);
    result := KeepDirectories(d, execute, path, Split(listing.out, ", "), includeTrailingSlash,
                              e => ReportsDirectory(d, execute, PathJoin(path, e)));
  }

  /** The loop of `list_directories`: entries are joined onto the unresolved
      `path`; `keep` names the test made on each entry. */
  method KeepDirectories(d: Docker, execute: Executor, path: string, entries: seq<string>, includeTrailingSlash: bool,
                         ghost keep: string -> bool)
    returns (result: seq<string>)
    requires forall e {:trigger ReportsDirectory(d, execute, PathJoin(path, e))} ::
               keep(e) == ReportsDirectory(d, execute, PathJoin(path, e))
    ensures result == var names := Filter(keep, entries);
                      if includeTrailingSlash then names else DropEach(names)
  {
    result := [];
    for i := 0 to |entries|
      invariant result == var names := Filter(keep, entries[..i]);
                          if includeTrailingSlash then names else DropEach(names)
    {
      var isDirectory := DirectoryEntry(d, execute, path, entries[i], keep);
      FilterStep(keep, entries, i);
      ghost var names := Filter(keep, entries[..i]);
      if isDirectory {
        if includeTrailingSlash {
          result := result + [entries[i]];
        } else {
          result := result + [DropLast(entries[i])];
        }
        DropEachSnoc(names, entries[i]);
      } else {
        assert names + [] == names;
      }
    }
    assert entries[..|entries|] == entries;
  }

  /** One step of the loop of `list_directories`. */
  method DirectoryEntry(d: Docker, execute: Executor, path: string, e: string, ghost keep: string -> bool)
    returns (isDirectory: bool)
    requires forall e {:trigger ReportsDirectory(d, execute, PathJoin(path, e))} ::
               keep(e) == ReportsDirectory(d, execute, PathJoin(path, e))
    ensures isDirectory == keep(e)
  {
    isDirectory := DirectoryExist(d, execute, PathJoin(path, e));
  }

  /** `file_exist` re-resolves the joined path, which changes nothing: the
      test runs on `join(resolved path, entry)` itself. */
  lemma ListFilesTestsJoinedPath(path: string, e: string)
    ensures TestFileCommand(PathJoin(WorkingDirectory(path), e)) == "test -f " + PathJoin(WorkingDirectory(path), e)
    ensures TestDirectoryCommand(PathJoin(WorkingDirectory(path), e)) == "test -d " + PathJoin(WorkingDirectory(path), e)
  {
    JoinOntoResolved(path, e);
  }

  /** `list_files` keeps the listing's order and only drops entries. */
  lemma FilesAmongIsSubsequence(d: Docker, execute: Executor, root: string, entries: seq<string>)
    ensures IsSubsequence(FilesAmong(d, execute, root, entries), entries)
  {
    FilterIsSubsequence(e => IsPlainFile(d, execute, PathJoin(root, e)), entries);
  }

  /** An entry is in the result of `list_files` exactly when it is listed and
      its join onto the resolved path is a file and not a directory. */
  lemma FilesAmongMembers(d: Docker, execute: Executor, root: string, entries: seq<string>, e: string)
    ensures e in FilesAmong(d, execute, root, entries) <==>
            e in entries && ReportsFile(d, execute, PathJoin(root, e)) && !ReportsDirectory(d, execute, PathJoin(root, e))
  {
    FilterMembers(e => IsPlainFile(d, execute, PathJoin(root, e)), entries, e);
  }

  /** `list_directories` keeps the listing's order and only drops entries
      (with the trailing slash kept). */
  lemma DirectoriesAmongIsSubsequence(d: Docker, execute: Executor, path: string, entries: seq<string>)
    ensures IsSubsequence(DirectoriesAmong(d, execute, path, entries, true), entries)
  {
    FilterIsSubsequence(e => ReportsDirectory(d, execute, PathJoin(path, e)), entries);
  }

  /** An entry is kept by `list_directories` exactly when it is listed and
      its join onto the UNRESOLVED argument is a directory. */
  lemma DirectoriesAmongMembers(d: Docker, execute: Executor, path: string, entries: seq<string>, e: string)
    ensures e in DirectoriesAmong(d, execute, path, entries, true) <==>
            e in entries && ReportsDirectory(d, execute, PathJoin(path, e))
  {
    FilterMembers(e => ReportsDirectory(d, execute, PathJoin(path, e)), entries, e);
  }

  /** Without the trailing slash, the same entries are kept and each one loses
      exactly its last character. */
  lemma TrailingSlashDropped(d: Docker, execute: Executor, path: string, entries: seq<string>)
    ensures var with := DirectoriesAmong(d, execute, path, entries, true);
            var without := DirectoriesAmong(d, execute, path, entries, false);
            |without| == |with| && forall i :: 0 <= i < |with| ==> without[i] == DropLast(with[i])
  {
  }
}
