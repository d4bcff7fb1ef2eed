/**
 * The attach tool (attach.py): find the shell process that Mininet started
 * for a node by scanning `ps aux` output, choose the command to run there
 * (a given command, `sh` by default, or a telnet session to an FRR daemon's
 * control port), and build the `mnexec -a <pid> <cmd>` line handed to the
 * shell. Running `ps` and the final `os.system` are left to the caller: the
 * model takes the `ps aux` lines as input and returns the line it would run.
 */
module Attach {
  import opened Wrappers
  import opened Text

  /** The two ways attach.py fails; both are a `KeyError` there. */
  datatype AttachError =
    | NodeNotRunning(node: string)   // no `ps` line matches the node
    | UnknownDaemon(daemon: string)  // the daemon is not in the port table

  /** The parsed command line: `--node`, `--daemon`, and `--cmd` (None when absent). */
  datatype Args = Args(node: string, daemon: Option<string>, cmd: Option<seq<string>>)
  {
    /** The `--cmd` tokens, `["sh"]` when the option is not given. */
    function Tokens(): seq<string> {
      if cmd.None? then DefaultCmd else cmd.value
    }
  }

  const DefaultCmd: seq<string> := ["sh"]

  const ShellMarker: string := "bash "

  /** The marker Mininet puts on a node's shell command line. */
  function NodeMarker(name: string): string {
    " mininet:" + name
  }

  /**
   * A `ps` line belongs to node `name` when it contains `bash ` and, at or
   * after the end of that occurrence, ` mininet:<name>`. Nothing is required
   * after the name: the pattern is matched at the start of the line only.
   */
  predicate LineMatches(line: string, name: string) {
    exists i, j | 0 <= i <= |line| && 0 <= j <= |line| ::
      i + |ShellMarker| <= j && OccursAt(ShellMarker, line, i) && OccursAt(NodeMarker(name), line, j)
  }

  /** The index of the first line that matches `name`, if any. */
  function FirstMatch(lines: seq<string>, name: string): (r: Option<nat>)
    ensures r.Some? ==> r.value < |lines| && LineMatches(lines[r.value], name)
    ensures r.Some? ==> forall k :: 0 <= k < r.value ==> !LineMatches(lines[k], name)
    ensures r.None? ==> forall k :: 0 <= k < |lines| ==> !LineMatches(lines[k], name)
  {
    if lines == [] then None
    else if LineMatches(lines[0], name) then Some(0)
    else
      match FirstMatch(lines[1..], name)
      case None => None
      case Some(k) => Some(k + 1)
  }

  /** A matching line always has a second whitespace-separated field. */
  lemma MatchingLineHasPid(line: string, name: string)
    requires LineMatches(line, name)
    ensures |Fields(line)| >= 2
  {
    var i, j :| 0 <= i <= |line| && 0 <= j <= |line| &&
      i + |ShellMarker| <= j && OccursAt(ShellMarker, line, i) && OccursAt(NodeMarker(name), line, j);
    OccursAtChar(ShellMarker, line, i, 0);
    OccursAtChar(ShellMarker, line, i, 4);
    OccursAtChar(NodeMarker(name), line, j, 1);
    assert !IsSpace(ShellMarker[0]) && IsSpace(ShellMarker[4]) && !IsSpace(NodeMarker(name)[1]);
    TwoFields(line, i, i + 4, j + 1);
  }

  /** What `get_pid` yields: the second field of the first matching line. */
  function PidOf(lines: seq<string>, name: string): (r: Result<string, AttachError>)
    ensures r.Err? <==> forall k :: 0 <= k < |lines| ==> !LineMatches(lines[k], name)
    ensures r.Err? ==> r.error == NodeNotRunning(name)
    ensures r.Ok? ==> IsWord(r.value)
  {
    match FirstMatch(lines, name)
    case None => Err(NodeNotRunning(name))
    case Some(k) =>
      MatchingLineHasPid(lines[k], name);
      Ok(Fields(lines[k])[1])
  }

  /** `get_pid`: scan the lines in order and stop at the first match. */
  method GetPid(lines: seq<string>, name: string) returns (r: Result<string, AttachError>)
    ensures r == PidOf(lines, name)
    ensures r.Ok? ==> exists k :: (0 <= k < |lines| && LineMatches(lines[k], name) &&
      (forall j :: 0 <= j < k ==> !LineMatches(lines[j], name)) &&
      |Fields(lines[k])| >= 2 && r.value == Fields(lines[k])[1])
  {
    for i := 0 to |lines|
      invariant forall k :: 0 <= k < i ==> !LineMatches(lines[k], name)
    {
      var line := lines[i];
      if !LineMatches(line, name) {
        continue;
      }
      MatchingLineHasPid(line, name);
      var pid := Fields(line)[1];
      return Ok(pid);
    }
    return Err(NodeNotRunning(name));
  }

  /** Lines after the first match play no part in the result. */
  lemma PidIgnoresLaterLines(lines: seq<string>, more: seq<string>, name: string)
    requires FirstMatch(lines, name).Some?
    ensures PidOf(lines + more, name) == PidOf(lines, name)
  {
    var k := FirstMatch(lines, name).value;
    var all := lines + more;
    assert all[k] == lines[k];
    assert forall j :: 0 <= j < k ==> all[j] == lines[j];
    assert FirstMatch(all, name) == Some(k);
  }

  /** The match is not anchored at the end of the line. */
  lemma MatchIgnoresTail(line: string, tail: string, name: string)
    requires LineMatches(line, name)
    ensures LineMatches(line + tail, name)
  {
    var i, j :| 0 <= i <= |line| && 0 <= j <= |line| &&
      i + |ShellMarker| <= j && OccursAt(ShellMarker, line, i) && OccursAt(NodeMarker(name), line, j);
    OccursAtExtend(ShellMarker, line, i, tail);
    OccursAtExtend(NodeMarker(name), line, j, tail);
  }

  /** A line of node `name + ext` also matches the query `name` (`R10` matches `R1`). */
  lemma LongerNameMatchesPrefix(line: string, name: string, ext: string)
    requires LineMatches(line, name + ext)
    ensures LineMatches(line, name)
  {
    var i, j :| 0 <= i <= |line| && 0 <= j <= |line| &&
      i + |ShellMarker| <= j && OccursAt(ShellMarker, line, i) && OccursAt(NodeMarker(name + ext), line, j);
    assert NodeMarker(name + ext) == NodeMarker(name) + ext;
    OccursAtPrefix(NodeMarker(name), ext, line, j);
  }

  /**
   * With R10's shell listed before R1's, the query for R1 returns R10's pid.
   */
  lemma QueryR1ReturnsR10Pid()
    ensures PidOf(["root 42 bash -is mininet:R10", "root 43 bash -is mininet:R1"], "R1") == Ok("42")
  {
    var lines := ["root 42 bash -is mininet:R10", "root 43 bash -is mininet:R1"];
    R10LineMatchesR1();
    R10LinePid();
    assert FirstMatch(lines, "R1") == Some(0);
  }

  lemma R10LineMatchesR1()
    ensures LineMatches("root 42 bash -is mininet:R10", "R1")
  {
    R10LineMarkers();
    OccursInMiddle("root 42 ", ShellMarker, "-is" + NodeMarker("R1") + "0");
    OccursInMiddle("root 42 " + ShellMarker + "-is", NodeMarker("R1"), "0");
  }

  lemma R10LinePid()
    ensures |Fields("root 42 bash -is mininet:R10")| >= 2
    ensures Fields("root 42 bash -is mininet:R10")[1] == "42"
  {
    R10LineFields();
    assert IsWord("root") && IsWord("42");
    TwoWordsThen("root", "42", "bash -is mininet:R10");
  }

  // The literal line rebuilt from its pieces; kept apart from the lemmas that
  // split it, where the solver would otherwise unfold `Fields` on the literal.
  lemma R10LineMarkers()
    ensures "root 42 bash -is mininet:R10" == "root 42 " + ShellMarker + ("-is" + NodeMarker("R1") + "0")
    ensures "root 42 bash -is mininet:R10" == "root 42 " + ShellMarker + "-is" + NodeMarker("R1") + "0"
  {
  }

  lemma R10LineFields()
    ensures "root 42 bash -is mininet:R10" == "root" + " " + ("42" + " " + "bash -is mininet:R10")
  {
  }

  /** FRR's well-known control ports (`port_dict`). */
  const Ports: map<string, nat> := map[
    "zebrasrv" := 2600,
    "zebra" := 2601,
    "ripd" := 2602,
    "ripngd" := 2603,
    "ospfd" := 2604,
    "bgpd" := 2605,
    "ospf6d" := 2606,
    "ospfapi" := 2607,
    "isisd" := 2608,
    "staticd" := 2616
  ]

  /** No two daemons share a port. */
  lemma PortsInjective()
    ensures forall a, b :: a in Ports && b in Ports && a != b ==> Ports[a] != Ports[b]
  {
  }

  /** `telnet localhost <port>` for a daemon in the table, `UnknownDaemon` otherwise. */
  function TelnetCommand(daemon: string): (r: Result<string, AttachError>)
    ensures r.Ok? <==> daemon in Ports
    ensures r.Err? ==> r.error == UnknownDaemon(daemon)
    ensures r.Ok? ==> Fields(r.value) == ["telnet", "localhost", DecimalString(Ports[daemon])]
  {
    if daemon in Ports then
      var port := DecimalString(Ports[daemon]);
      TelnetFields(port);
      Ok("telnet localhost " + port)
    else
      Err(UnknownDaemon(daemon))
  }

  lemma TelnetFields(port: string)
    requires IsWord(port)
    ensures Fields("telnet localhost " + port) == ["telnet", "localhost", port]
  {
    assert "telnet localhost " + port == "telnet" + " " + ("localhost" + " " + port);
    assert IsWord("telnet") && IsWord("localhost");
    TwoWordsThen("telnet", "localhost", port);
    FieldsOfWord(port);
  }

  /** The port in the telnet command reads back as the daemon's table entry. */
  lemma TelnetPortRoundTrip(daemon: string)
    requires daemon in Ports
    ensures |Fields(TelnetCommand(daemon).value)| == 3
    ensures var p := Fields(TelnetCommand(daemon).value)[2];
      (forall i :: 0 <= i < |p| ==> '0' <= p[i] <= '9') && ParseDecimal(p) == Ports[daemon]
  {
    ParseDecimalString(Ports[daemon]);
  }

  /** Distinct daemons get distinct telnet commands. */
  lemma TelnetCommandInjective(d1: string, d2: string)
    requires TelnetCommand(d1).Ok? && TelnetCommand(d1) == TelnetCommand(d2)
    ensures d1 == d2
  {
    var s1, s2 := DecimalString(Ports[d1]), DecimalString(Ports[d2]);
    assert "telnet localhost " + s1 == "telnet localhost " + s2;
    MiddleCancel("telnet localhost ", s1, s2, "");
    DecimalStringInjective(Ports[d1], Ports[d2]);
    PortsInjective();
  }

  lemma OspfdPort()
    ensures TelnetCommand("ospfd") == Ok("telnet localhost 2604")
  {
    assert Ports["ospfd"] == 2604;
    DecimalString2604();
    assert "telnet localhost " + "2604" == "telnet localhost 2604";
  }

  lemma DecimalString2604()
    ensures DecimalString(2604) == "2604"
  {
    assert DecimalString(2) == "2";
    assert DecimalString(26) == DecimalString(2) + "6" == "26";
    assert DecimalString(260) == DecimalString(26) + "0" == "260";
    assert DecimalString(2604) == DecimalString(260) + "4";
  }

  /**
   * The command run on the node: with `--daemon` the telnet command (the
   * `--cmd` tokens are ignored); otherwise the tokens joined with spaces.
   * The whitespace-separated words (`str.split()`) of the joined text are
   * those of each token in turn: a token such as `ip addr` gives two words,
   * an empty token none.
   */
  function SessionCommand(args: Args): (r: Result<string, AttachError>)
    ensures args.daemon.None? ==> r.Ok? && Fields(r.value) == FieldsOfEach(args.Tokens())
    ensures args.daemon.None? && (forall k :: 0 <= k < |args.Tokens()| ==> IsWord(args.Tokens()[k])) ==>
      Fields(r.value) == args.Tokens()
    ensures args.daemon.Some? ==> (r.Ok? <==> args.daemon.value in Ports)
    ensures args.daemon.Some? && r.Ok? ==>
      Fields(r.value) == ["telnet", "localhost", DecimalString(Ports[args.daemon.value])]
    ensures r.Err? ==> r.error == UnknownDaemon(args.daemon.value)
  {
    match args.daemon
    case Some(d) => TelnetCommand(d)
    case None =>
      FieldsOfJoinAny(args.Tokens());
      Ok(JoinSpaces(args.Tokens()))
  }

  /** Without `--daemon` and `--cmd` the session is `sh`. */
  lemma DefaultSessionIsSh(node: string)
    ensures SessionCommand(Args(node, None, None)) == Ok("sh")
  {
  }

  /** `--daemon` replaces `--cmd` whatever `--cmd` holds. */
  lemma DaemonOverridesCmd(node: string, d: string, c1: Option<seq<string>>, c2: Option<seq<string>>)
    ensures SessionCommand(Args(node, Some(d), c1)) == SessionCommand(Args(node, Some(d), c2))
  {
  }

  /** A `--cmd` token holding a space gives two whitespace-separated words. */
  lemma SpacedTokenSplits(node: string)
    ensures SessionCommand(Args(node, None, Some(["ip addr"]))) == Ok("ip addr")
    ensures Fields(SessionCommand(Args(node, None, Some(["ip addr"]))).value) == ["ip", "addr"]
  {
    assert "ip addr" == "ip" + " " + "addr";
    assert IsWord("ip") && IsWord("addr");
    WordThenSpace("ip", "addr");
    FieldsOfWord("addr");
  }

  /** The line handed to the shell. */
  function ExecLine(pid: string, cmd: string): string {
    "mnexec -a " + pid + " " + cmd
  }

  /**
   * The whitespace-separated words (`str.split()`) of the line are `mnexec`,
   * `-a`, the pid as one word, then the command's words.
   */
  lemma ExecLineFields(pid: string, cmd: string)
    requires IsWord(pid)
    ensures Fields(ExecLine(pid, cmd)) == ["mnexec", "-a", pid] + Fields(cmd)
  {
    assert ExecLine(pid, cmd) == "mnexec" + " " + ("-a" + " " + (pid + " " + cmd));
    assert IsWord("mnexec") && IsWord("-a");
    ThreeWordsThen("mnexec", "-a", pid, cmd);
  }

  /**
   * `main`: locate the node first, then choose the session command, then
   * build the `mnexec` line. An unknown node is reported even when the
   * daemon is unknown too.
   */
  method Attach(ps: seq<string>, args: Args) returns (r: Result<string, AttachError>)
    ensures PidOf(ps, args.node).Err? ==> r == Err(NodeNotRunning(args.node))
    ensures PidOf(ps, args.node).Ok? && SessionCommand(args).Err? ==> r == Err(SessionCommand(args).error)
    ensures r.Ok? <==> PidOf(ps, args.node).Ok? && SessionCommand(args).Ok?
    ensures r.Ok? ==> r.value == ExecLine(PidOf(ps, args.node).value, SessionCommand(args).value)
    ensures r.Ok? ==> Fields(r.value) == ["mnexec", "-a", PidOf(ps, args.node).value] + Fields(SessionCommand(args).value)
  {
    var found := GetPid(ps, args.node);
    if found.Err? {
      return Err(found.error);
    }
    var pid := found.value;
    var session := SessionCommand(args);
    if session.Err? {
      return Err(session.error);
    }
    ExecLineFields(pid, session.value);
    return Ok(ExecLine(pid, session.value));
  }
}
