/** The command line the type-check script hands to mypy. Parsing the
    script's own arguments, running the subprocess and reporting its exit
    code are not modelled. */
module MypyChecks {

  import opened Wrappers
  import opened Strings

  /** Directories whose files are never type-annotated. */
  const ExcludedDirectories: seq<string> := [
    "proto_files/",
    "scripts/linters/test_files/",
    "third_party/",
    "venv/",
    "core/tests/build_sources/",
    "core/tests/data/"
  ]

  /** `os.path.join('.', 'mypy.ini')` on a POSIX system. */
  const ConfigFilePath: string := "./mypy.ini"

  /** The fixed head of every command: the program and its configuration. */
  const MypyProgram: string := "mypy"

  /** `get_mypy_cmd`: the named files when there are any (a missing and an
      empty list are both falsy), otherwise the whole tree with the
      excluded directories joined into one `|` alternation. */
  function GetMypyCmd(files: Option<seq<string>>): (cmd: seq<string>)
    ensures |cmd| >= 3 && cmd[0] == MypyProgram
    ensures exists i :: 0 < i < |cmd| - 1 && cmd[i] == "--config-file" && cmd[i + 1] == ConfigFilePath
  {
    if files.Some? && |files.value| > 0 then
      var cmd := [MypyProgram, "--config-file", ConfigFilePath] + files.value;
      assert cmd[1] == "--config-file" && cmd[2] == ConfigFilePath && |cmd| > 3;
      cmd
    else
      var cmd := [MypyProgram, "--exclude", Join(ExcludedDirectories, "|"), "--config-file", ConfigFilePath, "."];
      assert cmd[3] == "--config-file" && cmd[4] == ConfigFilePath;
      cmd
  }

  /** With files named, they make up the whole command after the three
      fixed arguments, in the given order. */
  lemma ExplicitFilesCommand(files: seq<string>)
    requires |files| > 0
    ensures var cmd := GetMypyCmd(Some(files));
            |cmd| == 3 + |files| && cmd[3..] == files && "--exclude" !in cmd[..3]
  {
  }

  /** No excluded directory contains the separator `|`. */
  lemma NoSeparatorInExcluded()
    ensures forall i :: 0 <= i < |ExcludedDirectories| ==> !Contains(ExcludedDirectories[i], "|")
  {
    assert forall i :: 0 <= i < |ExcludedDirectories| ==> '|' !in ExcludedDirectories[i];
    forall i | 0 <= i < |ExcludedDirectories|
      ensures !Contains(ExcludedDirectories[i], "|")
    {
      ContainsChar(ExcludedDirectories[i], '|');
    }
  }

  /** Without files the whole tree is checked, and splitting the exclude
      argument on `|` gives back exactly the excluded directories. */
  lemma DefaultCommand(files: Option<seq<string>>)
    requires files.None? || files.value == []
    ensures var cmd := GetMypyCmd(files);
            |cmd| == 6 && cmd[1] == "--exclude" && cmd[5] == "."
            && Split(cmd[2], "|") == ExcludedDirectories
  {
    NoSeparatorInExcluded();
    SplitJoin(ExcludedDirectories, "|");
  }
}
