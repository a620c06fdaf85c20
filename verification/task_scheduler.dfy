/** The Windows Task Scheduler integration: the `schtasks` command lines the
    manager runs, and how it reads the verbose status listing back. Running
    the commands is left to the caller; their results are inputs. */
module TaskScheduler {
  import opened Wrappers
  import opened Text

  const TaskName := "ThermalrightLCDControl"
  const TaskPath := "\\Thermalright\\"

  /** The `/TN` value of every command. */
  const FullTaskName := TaskPath + TaskName

  /** The arguments used when none are given: start the tray application. */
  const DefaultArguments := "-m thermalright_lcd_control.ui.system_tray"

  const Description := "Thermalright LCD Control - Auto-start system tray application"

  // ---------------------------------------------------------------------
  // Command lines
  // ---------------------------------------------------------------------

  /** `/TR`: the program in double quotes, a space, then the arguments. */
  function TaskRun(program: string, arguments: string): (r: string)
    ensures |r| == |program| + |arguments| + 3
    ensures r[0] == '"' && r[|program| + 1] == '"' && r[|program| + 2] == ' '
  {
    "\"" + program + "\" " + arguments
  }

  /** `/TR` carries the program between the quotes and the arguments after
      the space, unchanged. */
  lemma TaskRunParts(program: string, arguments: string)
    ensures var r := TaskRun(program, arguments);
            r[1..|program| + 1] == program && r[|program| + 3..] == arguments
  {
  }

  /** Reads a `/TR` value back: the text between the first two quotes, and
      everything after the following space. */
  function SplitTaskRun(tr: string): (r: Option<(string, string)>)
    ensures r.Some? ==> |r.value.0| + |r.value.1| + 3 == |tr|
  {
    if |tr| < 1 || tr[0] != '"' || '"' !in tr[1..] then None
    else
      var q := IndexOf(tr[1..], '"') + 1;
      if q + 1 < |tr| && tr[q + 1] == ' ' then Some((tr[1..q], tr[q + 2..])) else None
  }

  /** The program can be read back from `/TR` whenever its path holds no
      double quote, whatever the arguments are. */
  lemma TaskRunRoundTrip(program: string, arguments: string)
    requires '"' !in program
    ensures SplitTaskRun(TaskRun(program, arguments)) == Some((program, arguments))
  {
    var tr := TaskRun(program, arguments);
    assert tr[1..] == program + "\" " + arguments;
    assert tr[1..][|program|] == '"';
    assert tr[1..][..|program|] == program;
    assert IndexOf(tr[1..], '"') == |program|;
    assert tr[1..|program| + 1] == program;
    assert tr[|program| + 3..] == arguments;
  }

  /** What `create_task` is asked for; `None` and `""` stand for defaults. */
  datatype CreateRequest = CreateRequest(
    programPath: Option<string>, arguments: string, runAsAdmin: bool)

  /** `create_task`'s command, with `python` the interpreter path used when
      no program is given. The working directory it computes is not passed
      to `schtasks`. */
  function CreateCommand(req: CreateRequest, python: string): (cmd: seq<string>)
    ensures |cmd| == 13
    ensures cmd[0] == "schtasks" && cmd[1] == "/Create" && cmd[2] == "/TN" && cmd[3] == FullTaskName
    ensures cmd[4] == "/TR" && |cmd[5]| > 0 && cmd[5][0] == '"'
    ensures SplitTaskRun(cmd[5]).Some? ==> SplitTaskRun(cmd[5]).value.1 != ""
    ensures cmd[6] == "/SC" && cmd[7] == "ONLOGON" && cmd[8] == "/RL"
    ensures cmd[9] == "HIGHEST" <==> req.runAsAdmin
    ensures cmd[9] == "LIMITED" <==> !req.runAsAdmin
    ensures cmd[10] == "/F" && cmd[11] == "/DESC" && cmd[12] == Description
  {
    var program := req.programPath.GetOr(python);
    var arguments := if req.arguments == "" then DefaultArguments else req.arguments;
    var tr := TaskRun(program, arguments);
    var cmd := ["schtasks", "/Create", "/TN", FullTaskName,
                "/TR", tr,
                "/SC", "ONLOGON",
                "/RL", if req.runAsAdmin then "HIGHEST" else "LIMITED",
                "/F",
                "/DESC", Description];
    assert SplitTaskRun(tr).Some? ==> SplitTaskRun(tr).value.1 != "" by {
      assert |DefaultArguments| > 0;
      TaskRunArguments(program, arguments);
    }
    cmd
  }

  /** However `/TR` is read back, its arguments are a suffix of it; a
      non-empty argument string therefore leaves a non-empty tail. */
  lemma TaskRunArguments(program: string, arguments: string)
    requires arguments != ""
    ensures SplitTaskRun(TaskRun(program, arguments)).Some? ==>
              SplitTaskRun(TaskRun(program, arguments)).value.1 != ""
  {
    var tr := TaskRun(program, arguments);
    var r := SplitTaskRun(tr);
    if r.Some? {
      var q := IndexOf(tr[1..], '"') + 1;
      assert q <= |program| + 1 by {
        assert tr[1..][|program|] == '"';
      }
    }
  }

  /** The value that follows the first occurrence of `flag` in a command. */
  function FlagValue(cmd: seq<string>, flag: string): (r: Option<string>)
    ensures r.Some? ==> exists i :: 0 <= i < |cmd| - 1 && cmd[i] == flag && cmd[i + 1] == r.value && flag !in cmd[..i]
    ensures r.None? ==> forall i :: 0 <= i < |cmd| - 1 ==> cmd[i] != flag
  {
    if |cmd| < 2 then None
    else if cmd[0] == flag then Some(cmd[1])
    else
      var r := FlagValue(cmd[1..], flag);
      assert forall i :: 1 <= i < |cmd| ==> cmd[i] == cmd[1..][i - 1];
      r
  }

  /** The first occurrence of a flag determines its value. */
  lemma {:induction false} FlagValueAt(cmd: seq<string>, flag: string, i: int)
    requires 0 <= i < |cmd| - 1 && cmd[i] == flag
    requires forall j :: 0 <= j < i ==> cmd[j] != flag
    ensures FlagValue(cmd, flag) == Some(cmd[i + 1])
    decreases i
  {
    if i > 0 {
      FlagValueAt(cmd[1..], flag, i - 1);
    }
  }

  /** The created task runs at logon, with the requested privilege level. */
  lemma CreateCommandSchedule(req: CreateRequest, python: string)
    ensures var cmd := CreateCommand(req, python);
            && FlagValue(cmd, "/SC") == Some("ONLOGON")
            && FlagValue(cmd, "/RL") == Some(if req.runAsAdmin then "HIGHEST" else "LIMITED")
  {
    var cmd := CreateCommand(req, python);
    assert |FullTaskName| > 3 && cmd[5][0] != '/';
    assert forall j :: 0 <= j < 6 ==> cmd[j] != "/SC";
    FlagValueAt(cmd, "/SC", 6);
    assert forall j :: 0 <= j < 8 ==> cmd[j] != "/RL";
    FlagValueAt(cmd, "/RL", 8);
  }

  /** The created task runs the requested program (the interpreter when none
      is given) with the requested arguments (the tray module when none are
      given). */
  lemma CreateCommandProgram(req: CreateRequest, python: string)
    requires '"' !in req.programPath.GetOr(python)
    ensures var cmd := CreateCommand(req, python);
            && FlagValue(cmd, "/TR").Some?
            && SplitTaskRun(FlagValue(cmd, "/TR").value)
               == Some((req.programPath.GetOr(python),
                        if req.arguments == "" then DefaultArguments else req.arguments))
  {
    var program := req.programPath.GetOr(python);
    var arguments := if req.arguments == "" then DefaultArguments else req.arguments;
    TaskRunRoundTrip(program, arguments);
    var cmd := CreateCommand(req, python);
    FlagValueAt(cmd, "/TR", 4);
  }

  /** The other operations of the manager. */
  datatype Operation = IsInstalled | Delete | Enable | Disable | RunNow | Status

  /** The command each operation runs. */
  function OperationCommand(op: Operation): (cmd: seq<string>)
    ensures |cmd| >= 4 && cmd[0] == "schtasks" && cmd[2] == "/TN" && cmd[3] == FullTaskName
    ensures op == Delete <==> "/F" in cmd
    ensures (op == Enable || op == Disable) <==> cmd[1] == "/Change"
  {
    match op
    case IsInstalled => ["schtasks", "/Query", "/TN", FullTaskName]
    case Delete => ["schtasks", "/Delete", "/TN", FullTaskName, "/F"]
    case Enable => ["schtasks", "/Change", "/TN", FullTaskName, "/ENABLE"]
    case Disable => ["schtasks", "/Change", "/TN", FullTaskName, "/DISABLE"]
    case RunNow => ["schtasks", "/Run", "/TN", FullTaskName]
    case Status => ["schtasks", "/Query", "/TN", FullTaskName, "/FO", "LIST", "/V"]
  }

  /** Every command, the creation included, names the same task. */
  lemma SameTaskEverywhere(op: Operation, req: CreateRequest, python: string)
    ensures FlagValue(OperationCommand(op), "/TN") == Some(FullTaskName)
    ensures FlagValue(CreateCommand(req, python), "/TN") == Some(FullTaskName)
  {
    FlagValueAt(OperationCommand(op), "/TN", 2);
    FlagValueAt(CreateCommand(req, python), "/TN", 2);
  }

  // ---------------------------------------------------------------------
  // Reading the status listing
  // ---------------------------------------------------------------------

  /** A listing line `key: value` read as its stripped key and stripped
      value, split at the first colon; `None` for a line without a colon. */
  function Entry(line: string): (r: Option<(string, string)>)
    ensures r.Some? <==> ':' in line
  {
    if ':' in line then
      var parts := SplitOnce(line, ':');
      Some((Strip(parts.0), Strip(parts.1)))
    else None
  }

  /** The listing read line by line. */
  function Entries(lines: seq<string>): (es: seq<Option<(string, string)>>)
    ensures |es| == |lines|
    ensures forall i :: 0 <= i < |lines| ==> es[i] == Entry(lines[i])
  {
    seq(|lines|, i requires 0 <= i < |lines| => Entry(lines[i]))
  }

  /** The entry at position `i` has key `k`. */
  predicate KeyAt(es: seq<Option<(string, string)>>, i: int, k: string)
    requires 0 <= i < |es|
  {
    es[i].Some? && es[i].value.0 == k
  }

  /** The position of the last entry with key `k`, or -1. */
  function LastEntryFor(es: seq<Option<(string, string)>>, k: string): (i: int)
    ensures -1 <= i < |es|
    ensures i >= 0 ==> KeyAt(es, i, k)
    ensures forall j :: i < j < |es| ==> !KeyAt(es, j, k)
  {
    if |es| == 0 then -1
    else if KeyAt(es, |es| - 1, k) then |es| - 1
    else
      var init := es[..|es| - 1];
      assert forall j :: 0 <= j < |init| ==> init[j] == es[j];
      var i := LastEntryFor(init, k);
      assert i >= 0 ==> KeyAt(init, i, k) && init[i] == es[i];
      forall j | i < j < |init| ensures !KeyAt(es, j, k) {
        assert !KeyAt(init, j, k) && init[j] == es[j];
      }
      i
  }

  /** The loop of `get_task_status`: each entry in turn sets its key, so a
      key is present iff some line has it, and holds the value of the last
      such line. */
  function ParseEntries(es: seq<Option<(string, string)>>): (info: map<string, string>)
    ensures forall k :: k in info <==> LastEntryFor(es, k) >= 0
    ensures forall k :: k in info ==> info[k] == es[LastEntryFor(es, k)].value.1
  {
    if |es| == 0 then map[]
    else
      var init := es[..|es| - 1];
      assert forall j :: 0 <= j < |init| ==> init[j] == es[j];
      var info := ParseEntries(init);
      match es[|es| - 1]
      case None => info
      case Some(kv) => info[kv.0 := kv.1]
  }

  /** `get_task_status`: nothing when the query fails; otherwise one entry
      per key, holding the value of the last line with that key. */
  function TaskStatus(returnCode: int, stdout: string): (info: map<string, string>)
    ensures returnCode != 0 ==> info == map[]
    ensures returnCode == 0 ==> info == ParseEntries(Entries(Split(stdout, '\n')))
  {
    if returnCode != 0 then map[] else ParseEntries(Entries(Split(stdout, '\n')))
  }

  /** Keys and values carry no surrounding whitespace. */
  lemma ParsedEntriesStripped(lines: seq<string>)
    ensures var info := ParseEntries(Entries(lines));
            forall k :: k in info ==> Strip(k) == k && Strip(info[k]) == info[k]
  {
    var es := Entries(lines);
    var info := ParseEntries(es);
    forall k | k in info ensures Strip(k) == k && Strip(info[k]) == info[k] {
      var line := lines[LastEntryFor(es, k)];
      StripIdempotent(SplitOnce(line, ':').0);
      StripIdempotent(SplitOnce(line, ':').1);
    }
  }

  /** A `key: value` line whose key has no colon reads back as that key and
      value, stripped. */
  lemma EntryRoundTrip(key: string, value: string)
    requires ':' !in key
    ensures Entry(key + ":" + value) == Some((Strip(key), Strip(value)))
  {
    var line := key + ":" + value;
    assert line[|key|] == ':';
    var parts := SplitOnce(line, ':');
    assert |parts.0| == |key|;
    assert parts.0 == line[..|key|] == key;
    assert parts.1 == line[|key| + 1..] == value;
  }
}
