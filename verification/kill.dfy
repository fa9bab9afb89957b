/** Killing: `killProcess` (the command it runs and how it words a failure) and `killPort`.
    Running a command is an oracle `exec` from the command text to `None` when it exits
    normally, or to `Some(message)` with the message of the error `exec` rejects with. */
module Kill {
  import opened Wrappers
  import opened Seqs
  import opened JsText
  import opened Records
  import opened Queries

  /** `process.platform`: `win32`, or any other platform, which is treated as Unix. */
  datatype Platform = Windows | Unix

  /** The program `killProcess` runs. */
  function Program(platform: Platform): string {
    match platform
    case Windows => "taskkill"
    case Unix => "kill"
  }

  /** The text in the flag position: the forcing flag, or nothing. */
  function ForceFlag(platform: Platform, force: bool): string {
    if !force then ""
    else
      match platform
      case Windows => "/F"
      case Unix => "-9"
  }

  /** The text after the flag position: the pid, after "/PID" on Windows. */
  function PidArgument(platform: Platform, pid: Option<int>): string {
    match platform
    case Windows => "/PID" + " " + NumberText(pid)
    case Unix => NumberText(pid)
  }

  /** The shell command `killProcess(pid, force)` runs: `taskkill <flag> /PID <pid>` or
      `kill <flag> <pid>`. Without `force` the flag position is left empty, so the command holds
      two spaces in a row. */
  function KillCommand(platform: Platform, pid: Option<int>, force: bool): (c: string)
    ensures SplitWs(c) == KillWords(platform, pid, force)
  {
    ProgramWord(platform);
    FlagWord(platform, force);
    PidArgumentWords(platform, pid);
    FlagSlotWords(Program(platform), ForceFlag(platform, force), PidArgument(platform, pid));
    Program(platform) + " " + ForceFlag(platform, force) + " " + PidArgument(platform, pid)
  }

  /** The words the pid argument is made of. */
  function PidWords(platform: Platform, pid: Option<int>): seq<string> {
    match platform
    case Windows => ["/PID", NumberText(pid)]
    case Unix => [NumberText(pid)]
  }

  /** The words the shell sees. */
  function KillWords(platform: Platform, pid: Option<int>, force: bool): seq<string> {
    [Program(platform)] + (if force then [ForceFlag(platform, force)] else []) + PidWords(platform, pid)
  }

  /** The text of a pid is one word, and it reads back as the pid: NaN prints as "NaN", which
      `parseInt` reads as NaN again. */
  lemma NumberTextWord(x: Option<int>)
    ensures NumberText(x) != [] && NoSpace(NumberText(x))
    ensures ParseInt(NumberText(x)) == x
  {
    match x
    case None =>
      NaNTextIsNaN(NumberText(x));
    case Some(n) =>
      ParseIntOfIntToString(n);
      IntToStringWord(n);
  }

  lemma NaNTextIsNaN(s: string)
    requires s == "NaN"
    ensures s != [] && NoSpace(s) && ParseInt(s) == None
  {
    UnsignedPlain(s);
    assert !HexPrefixed(s);
    assert LeadingDigits(s, 10) == [];
  }

  lemma IntToStringWord(n: int)
    ensures IntToString(n) != [] && NoSpace(IntToString(n))
  {
    var d := NatToDecimal(if n < 0 then -n else n);
    assert forall i :: 0 <= i < |d| ==> !IsSpace(d[i]) by {
      assert forall i :: 0 <= i < |d| ==> IsDigit(d[i]);
    }
  }

  /** The last word of the kill command reads back as the pid it was built from. */
  lemma KillCommandWords(platform: Platform, pid: Option<int>, force: bool)
    ensures ParseInt(Last(SplitWs(KillCommand(platform, pid, force)))) == pid
  {
    LastWordIsPid(platform, pid, force);
  }

  lemma LastWordIsPid(platform: Platform, pid: Option<int>, force: bool)
    ensures ParseInt(Last(KillWords(platform, pid, force))) == pid
  {
    var front := [Program(platform)] + (if force then [ForceFlag(platform, force)] else []);
    PidArgumentWords(platform, pid);
    LastOfAppend(front, PidWords(platform, pid));
    NumberTextWord(pid);
  }

  lemma ProgramWord(platform: Platform)
    ensures Program(platform) != [] && NoSpace(Program(platform))
  {
  }

  lemma FlagWord(platform: Platform, force: bool)
    ensures NoSpace(ForceFlag(platform, force))
    ensures ForceFlag(platform, force) == [] <==> !force
  {
  }

  lemma PidArgumentWords(platform: Platform, pid: Option<int>)
    ensures PidArgument(platform, pid) != [] && !IsSpace(PidArgument(platform, pid)[0])
    ensures SplitWs(PidArgument(platform, pid)) == PidWords(platform, pid)
    ensures Last(PidWords(platform, pid)) == NumberText(pid)
  {
    var t := NumberText(pid);
    NumberTextWord(pid);
    SplitWsNoSpace(t);
    if platform == Windows {
      PidFlagWords("/PID", t);
    }
  }

  lemma PidFlagWords(f: string, t: string)
    requires f == "/PID" && NoSpace(t) && SplitWs(t) == [t]
    ensures SplitWs(f + " " + t) == [f, t]
  {
    assert NoSpace(f);
    SplitWsRun(f, " ", t);
  }

  /** A program word, a flag position that may be empty, and the rest, joined by single spaces:
      an empty flag position adds no word. */
  lemma FlagSlotWords(p: string, flag: string, rest: string)
    requires p != [] && NoSpace(p) && NoSpace(flag)
    requires rest != [] && !IsSpace(rest[0])
    ensures SplitWs(p + " " + flag + " " + rest) == [p] + (if flag == [] then [] else [flag]) + SplitWs(rest)
  {
    SeparatedSlot(p, flag, rest, ' ');
    if flag == [] {
      SplitWsRun(p, "  ", rest);
      AppendEmpty([p]);
    } else {
      SplitWsRun(flag, " ", rest);
      assert (flag + [' '] + rest)[0] == flag[0];
      SplitWsRun(p, " ", flag + [' '] + rest);
      Associate([p], [flag], SplitWs(rest));
    }
  }

  function Last(s: seq<string>): string
    requires s != []
  {
    s[|s| - 1]
  }

  /** The message is written as two literals because the verifier does not look inside a string
      literal longer than about forty characters. */
  const PermissionMessage := "Permission denied. Try running " + "with sudo/administrator privileges."

  function NotFoundMessage(pid: Option<int>): string {
    "Process " + NumberText(pid) + " " + "not found"
  }

  predicate SaysNotFound(m: string) {
    Contains(m, "No such process") || Contains(m, "not found")
  }

  predicate SaysPermission(m: string) {
    Contains(m, "permission") || Contains(m, "denied")
  }

  /** The message `killProcess` rejects with when the command fails: a missing process first,
      then a permission problem, otherwise the command's own message. */
  function KillErrorMessage(pid: Option<int>, m: string): (r: string)
    ensures SaysNotFound(r) <==> SaysNotFound(m)
    ensures SaysPermission(m) ==> SaysNotFound(r) || SaysPermission(r)
    ensures SaysNotFound(m) || SaysPermission(m) || r == m
    ensures SaysNotFound(m) ==> r == NotFoundMessage(pid)
    ensures !SaysNotFound(m) && SaysPermission(m) ==> r == PermissionMessage
  {
    NotFoundMessageSaysNotFound(pid);
    PermissionMessageSays();
    if SaysNotFound(m) then NotFoundMessage(pid)
    else if SaysPermission(m) then PermissionMessage
    else m
  }

  lemma NotFoundMessageSaysNotFound(pid: Option<int>)
    ensures SaysNotFound(NotFoundMessage(pid))
  {
    var head := "Process " + NumberText(pid) + " ";
    ContainsMiddle(head, "not found", []);
    AppendEmpty(head + "not found");
  }

  lemma PermissionMessageSays()
    ensures !SaysNotFound(PermissionMessage) && SaysPermission(PermissionMessage)
  {
    PermissionMessageLacks();
    MissingCharNotContained(PermissionMessage, "No such process", 'N');
    MissingCharNotContained(PermissionMessage, "not found", 'f');
    PermissionMessageSaysDenied();
  }

  lemma PermissionMessageLacks()
    ensures 'N' !in PermissionMessage && 'f' !in PermissionMessage
  {
    HeadPiecesLack("Permission denied. Try running ");
    TailPiecesLack("with sudo/administrator privileges.");
  }

  lemma HeadPiecesLack(s: string)
    requires s == "Permission denied. Try running "
    ensures 'N' !in s && 'f' !in s
  {
  }

  lemma TailPiecesLack(s: string)
    requires s == "with sudo/administrator privileges."
    ensures 'N' !in s && 'f' !in s
  {
  }

  lemma PermissionMessageSaysDenied()
    ensures Contains(PermissionMessage, "denied")
  {
    var a, rest := "Permission ", ". Try running " + "with sudo/administrator privileges.";
    assert "Permission denied. Try running " == a + "denied" + ". Try running ";
    assert PermissionMessage == a + "denied" + rest;
    ContainsMiddle(a, "denied", rest);
  }

  /** Rewording is a fixed point: a message that already went through it comes out unchanged,
      so a caller that classifies again learns nothing new. */
  lemma KillErrorMessageIdempotent(pid: Option<int>, m: string)
    ensures KillErrorMessage(pid, KillErrorMessage(pid, m)) == KillErrorMessage(pid, m)
  {
    NotFoundMessageSaysNotFound(pid);
    PermissionMessageSays();
  }

  /** `killProcess(pid, force)`: run the kill command; report success, or fail with the
      reworded message. */
  function KillProcess(platform: Platform, pid: Option<int>, force: bool, exec: string -> Option<string>): (r: Outcome)
    ensures r.Pass? <==> exec(KillCommand(platform, pid, force)).None?
    ensures exec(KillCommand(platform, pid, force)).Some? ==>
      r == Fail(KillErrorMessage(pid, exec(KillCommand(platform, pid, force)).value))
  {
    match exec(KillCommand(platform, pid, force))
    case None => Pass
    case Some(m) => Fail(KillErrorMessage(pid, m))
  }

  /** `result` reports one attempt to kill the process of `x`: the record itself, success
      exactly when the kill command exits normally, and otherwise the reworded error. */
  predicate Reports(platform: Platform, force: bool, exec: string -> Option<string>, x: PortRecord, result: KillResult) {
    var outcome := exec(KillCommand(platform, x.pid, force));
    && result.record == x
    && (result.success <==> outcome.None?)
    && (result.success ==> result.error == None)
    && (!result.success ==> result.error == Some(KillErrorMessage(x.pid, outcome.value)))
  }

  /** One iteration of the loop of `killPort`. */
  function Attempt(platform: Platform, force: bool, exec: string -> Option<string>, x: PortRecord): (result: KillResult)
    ensures Reports(platform, force, exec, x, result)
  {
    match KillProcess(platform, x.pid, force, exec)
    case Pass => KillResult(x, true, None)
    case Fail(m) => KillResult(x, false, Some(m))
  }

  /** `killPort(port, force)`: fails when `getPortInfo(port)` finds nothing; otherwise tries to
      kill every process found, in order, one attempt each, and reports each attempt. */
  method KillPort(platform: Platform, portArg: string, force: bool, active: seq<PortRecord>,
                  exec: string -> Option<string>) returns (r: Result<seq<KillResult>>)
    ensures r.Err? <==> GetPortInfo(portArg, active) == []
    ensures r.Err? ==> r.message == "No process found on port " + portArg
    ensures r.Ok? ==> |r.value| == |GetPortInfo(portArg, active)|
    ensures r.Ok? ==> forall i :: 0 <= i < |r.value| ==>
      Reports(platform, force, exec, GetPortInfo(portArg, active)[i], r.value[i])
    ensures r.Ok? ==> forall i :: 0 <= i < |r.value| ==> ParseInt(portArg) == Some(r.value[i].record.port)
  {
    var procs := GetPortInfo(portArg, active);
    if |procs| == 0 {
      return Err("No process found on port " + portArg);
    }
    var results := KillEach(platform, force, exec, procs);
    return Ok(results);
  }

  /** The loop of `killPort`: one attempt per record, in order. */
  method KillEach(platform: Platform, force: bool, exec: string -> Option<string>, procs: seq<PortRecord>)
    returns (results: seq<KillResult>)
    ensures |results| == |procs|
    ensures forall i :: 0 <= i < |procs| ==> Reports(platform, force, exec, procs[i], results[i])
  {
    var attempt := (x: PortRecord) => Attempt(platform, force, exec, x);
    results := [];
    var i := 0;
    while i < |procs|
      invariant 0 <= i <= |procs|
      invariant results == Map(attempt, procs[..i])
    {
      MapSnoc(attempt, procs[..i], procs[i]);
      TakeOneMore(procs, i);
      results := results + [attempt(procs[i])];
      i := i + 1;
    }
    TakeAll(procs);
  }
}
