/**
 * The scenario runner (route-0.py): the FRR launch command for one daemon
 * on one node, the `killall` line, the table of (topology, scenario) pairs
 * the runner accepts, and the ordered list of actions `run` performs. The
 * emulator, the scenario's own setup and the shell are outside the model:
 * `run` is given the switch names Mininet created and the scenario's
 * daemon-to-nodes and daemon-to-directory assignments, and returns the
 * actions in the order it issues them.
 */
module Route {
  import opened Wrappers
  import opened Text

  /** The daemons `run` starts and kills, in start order. */
  const Daemons: seq<string> := ["zebra", "staticd", "isisd"]

  function BinaryPath(daemon: string): string {
    "/usr/lib/frr/" + daemon
  }

  function ConfPath(confDir: string, node: string): string {
    confDir + "/" + node + ".conf"
  }

  function PidPath(node: string, daemon: string): string {
    "/tmp/" + node + "-" + daemon + ".pid"
  }

  function OutPath(node: string, daemon: string): string {
    "/tmp/" + node + "-" + daemon + ".out"
  }

  /** The shell line `start_daemon` hands to the node. */
  function StartDaemonCommand(node: string, daemon: string, confDir: string): string {
    BinaryPath(daemon) + " -f " + ConfPath(confDir, node) + " -d -i " + PidPath(node, daemon)
      + " > " + OutPath(node, daemon) + " 2>&1"
  }

  /** The `killall` line of the teardown: the daemon list joined with single spaces. */
  function KillCommand(): string {
    "killall -9 " + JoinSpaces(Daemons)
  }

  /** The `killall` line of the cleanup, with its output discarded. */
  function CleanupKillCommand(): string {
    KillCommand() + " > /dev/null 2>&1"
  }

  datatype Topology = OneNode | TwoNodes
  {
    function Name(): string {
      match this
      case OneNode => "one_node"
      case TwoNodes => "two_nodes"
    }
  }

  datatype ScenarioName = Plain | Basic | Isis
  {
    function Name(): string {
      match this
      case Plain => "plain"
      case Basic => "basic"
      case Isis => "isis"
    }
  }

  /** The scenarios each topology supports (the `supported` table). */
  function Supported(t: Topology): set<ScenarioName> {
    match t
    case OneNode => {Plain, Basic}
    case TwoNodes => {Plain, Basic, Isis}
  }

  function Quoted(s: string): string {
    "\"" + s + "\""
  }

  /** The text of the `ValueError` raised for an unsupported pair. */
  function UnsupportedMessage(s: ScenarioName, t: Topology): string {
    "Scenario " + Quoted(s.Name()) + " is not supported for topology " + Quoted(t.Name())
  }

  /** The validation in the entry point: accept the pair or name both parts in the error. */
  function CheckSupported(t: Topology, s: ScenarioName): (r: Result<(), string>)
    ensures r.Ok? <==> s in Supported(t)
    ensures r.Err? ==> Contains(r.error, Quoted(s.Name())) && Contains(r.error, Quoted(t.Name()))
  {
    if s in Supported(t) then Ok(())
    else
      MessageNames(s, t);
      Err(UnsupportedMessage(s, t))
  }

  lemma MessageNames(s: ScenarioName, t: Topology)
    ensures Contains(UnsupportedMessage(s, t), Quoted(s.Name()))
    ensures Contains(UnsupportedMessage(s, t), Quoted(t.Name()))
  {
    var qs, qt := Quoted(s.Name()), Quoted(t.Name());
    var b := " is not supported for topology ";
    assert UnsupportedMessage(s, t) == "Scenario " + qs + (b + qt);
    ContainsMiddle("Scenario ", qs, b + qt);
    assert UnsupportedMessage(s, t) == ("Scenario " + qs + b) + qt + "";
    ContainsMiddle("Scenario " + qs + b, qt, "");
  }

  /** A scenario's assignments: daemon to the nodes that run it, daemon to its config directory. */
  datatype ScenarioConf = ScenarioConf(nodes: map<string, set<string>>, confDirs: map<string, string>)

  /** The scenario defines both attributes for every daemon of the list. */
  predicate Complete(sc: ScenarioConf) {
    forall d :: d in Daemons ==> d in sc.nodes && d in sc.confDirs
  }

  const ForwardCmd: string := "sysctl -w net.ipv4.ip_forward=1"
  const DropLoopbackCmd: string := "ip addr del 127.0.0.1/8 dev lo"

  /** What `run` does, in order. */
  datatype Action =
    | Host(cmd: string)                                     // os.system on the host
    | StartNetwork                                          // Mininet(...) and net.start()
    | SetupScenario                                         // scenario.setup(net, topo.topo_dir)
    | Launch(node: string, daemon: string, confDir: string) // start_daemon(node, daemon, confDir)
    | NodeCmd(node: string, cmd: string)                    // node.cmd(cmd)
    | Interact                                              // CLI(net)
    | StopNetwork                                           // net.stop()

  /** The node-level actions carry a node. */
  predicate OnNode(a: Action) {
    a.Launch? || a.NodeCmd?
  }

  /**
   * The line `node.cmd` receives for a node-level action: a launch stands for
   * the `start_daemon` line of its (node, daemon, directory) triple.
   */
  function NodeLine(a: Action): string
    requires OnNode(a)
  {
    if a.Launch? then StartDaemonCommand(a.node, a.daemon, a.confDir) else a.cmd
  }

  /** Router post-configuration applies to nodes whose name starts with `R`. */
  predicate IsRouter(node: string) {
    |node| > 0 && node[0] == 'R'
  }

  /** The launches for `node` over the first `k` daemons of the list. */
  function LaunchesUpTo(node: string, sc: ScenarioConf, k: nat): seq<Action>
    requires Complete(sc) && k <= |Daemons|
  {
    if k == 0 then []
    else
      var d := Daemons[k - 1];
      LaunchesUpTo(node, sc, k - 1) + (if node in sc.nodes[d] then [Launch(node, d, sc.confDirs[d])] else [])
  }

  function RouterSetup(node: string): seq<Action> {
    if IsRouter(node) then [NodeCmd(node, ForwardCmd), NodeCmd(node, DropLoopbackCmd)] else []
  }

  /** Everything `run` does for one switch. */
  function NodeBlock(node: string, sc: ScenarioConf): seq<Action>
    requires Complete(sc)
  {
    LaunchesUpTo(node, sc, |Daemons|) + RouterSetup(node)
  }

  /** The per-switch phase of `run`, switch after switch. */
  function Schedule(switches: seq<string>, sc: ScenarioConf): (r: seq<Action>)
    requires Complete(sc)
    ensures forall p :: 0 <= p < |r| ==> OnNode(r[p]) && r[p].node in switches
  {
    if switches == [] then []
    else
      var pre := switches[..|switches| - 1];
      var r := Schedule(pre, sc) + NodeBlock(switches[|switches| - 1], sc);
      assert forall p :: 0 <= p < |Schedule(pre, sc)| ==> r[p].node in pre;
      BlockOnNode(switches[|switches| - 1], sc);
      r
  }

  /** `run` before the switch loop: the cleanup kill, `net.start()`, `scenario.setup`. */
  function Prologue(): seq<Action> {
    [Host(CleanupKillCommand()), StartNetwork, SetupScenario]
  }

  /** `run` after the switch loop: `CLI(net)`, `net.stop()`, the teardown kill. */
  function Epilogue(): seq<Action> {
    [Interact, StopNetwork, Host(KillCommand())]
  }

  /** `run`: cleanup, start, per-switch daemons and router setup, interaction, teardown. */
  method Run(switches: seq<string>, sc: ScenarioConf) returns (actions: seq<Action>)
    requires Complete(sc)
    ensures actions == Prologue() + Schedule(switches, sc) + Epilogue()
  {
    actions := Prologue();
    for i := 0 to |switches|
      invariant actions == Prologue() + Schedule(switches[..i], sc)
    {
      actions := StartNode(actions, switches[i], sc);
      ScheduleStep(switches, i, sc);
      assert Prologue() + (Schedule(switches[..i], sc) + NodeBlock(switches[i], sc))
          == Prologue() + Schedule(switches[..i], sc) + NodeBlock(switches[i], sc);
    }
    assert switches[..|switches|] == switches;
    actions := actions + Epilogue();
  }

  /** The body of `run`'s loop for one switch: its daemons in list order, then router setup. */
  method StartNode(actions: seq<Action>, node: string, sc: ScenarioConf) returns (after: seq<Action>)
    requires Complete(sc)
    ensures after == actions + NodeBlock(node, sc)
  {
    after := actions;
    for k := 0 to |Daemons|
      invariant after == actions + LaunchesUpTo(node, sc, k)
    {
      var daemon := Daemons[k];
      if node in sc.nodes[daemon] {
        var confDir := sc.confDirs[daemon];
        after := after + [Launch(node, daemon, confDir)];
      }
      ghost var step := if node in sc.nodes[daemon] then [Launch(node, daemon, sc.confDirs[daemon])] else [];
      assert actions + (LaunchesUpTo(node, sc, k) + step) == actions + LaunchesUpTo(node, sc, k) + step;
    }
    if IsRouter(node) {
      after := after + [NodeCmd(node, ForwardCmd)];
      after := after + [NodeCmd(node, DropLoopbackCmd)];
    }
  }

  lemma ScheduleStep(switches: seq<string>, i: nat, sc: ScenarioConf)
    requires Complete(sc) && i < |switches|
    ensures Schedule(switches[..i + 1], sc) == Schedule(switches[..i], sc) + NodeBlock(switches[i], sc)
  {
    assert switches[..i + 1][..i] == switches[..i];
  }

  /** The entry point: validate the pair first, then run. */
  method Start(t: Topology, s: ScenarioName, switches: seq<string>, sc: ScenarioConf)
    returns (r: Result<seq<Action>, string>)
    requires Complete(sc)
    ensures r.Err? <==> s !in Supported(t)
    ensures r.Err? ==> r.error == UnsupportedMessage(s, t)
    ensures r.Ok? ==> r.value == Prologue() + Schedule(switches, sc) + Epilogue()
  {
    var check := CheckSupported(t, s);
    if check.Err? {
      return Err(check.error);
    }
    var actions := Run(switches, sc);
    return Ok(actions);
  }

  // ---------------------------------------------------------------------------
  // Lemmas about the command lines

  lemma PathsAreWords(node: string, daemon: string, confDir: string)
    requires IsWord(node) && IsWord(daemon) && IsWord(confDir)
    ensures IsWord(BinaryPath(daemon)) && IsWord(ConfPath(confDir, node))
    ensures IsWord(PidPath(node, daemon)) && IsWord(OutPath(node, daemon))
  {
    assert IsWord("/usr/lib/frr/") && IsWord("/") && IsWord(".conf");
    assert IsWord("/tmp/") && IsWord("-") && IsWord(".pid") && IsWord(".out");
    WordConcat("/usr/lib/frr/", daemon);
    WordConcat(confDir, "/");
    WordConcat(confDir + "/", node);
    WordConcat(confDir + "/" + node, ".conf");
    WordConcat("/tmp/", node);
    WordConcat("/tmp/" + node, "-");
    WordConcat("/tmp/" + node + "-", daemon);
    WordConcat("/tmp/" + node + "-" + daemon, ".pid");
    WordConcat("/tmp/" + node + "-" + daemon, ".out");
  }

  /**
   * The whitespace-separated words (`str.split()`) of the launch line are the
   * daemon binary, `-f` with the
   * node's config file in the scenario's directory, `-d`, `-i` with the pid
   * file, and the redirection of both output streams to the output file.
   */
  lemma StartDaemonCommandFields(node: string, daemon: string, confDir: string)
    requires IsWord(node) && IsWord(daemon) && IsWord(confDir)
    ensures Fields(StartDaemonCommand(node, daemon, confDir)) ==
      [BinaryPath(daemon), "-f", ConfPath(confDir, node), "-d", "-i", PidPath(node, daemon),
       ">", OutPath(node, daemon), "2>&1"]
  {
    var bin, conf, pid, out := BinaryPath(daemon), ConfPath(confDir, node), PidPath(node, daemon), OutPath(node, daemon);
    PathsAreWords(node, daemon, confDir);
    assert StartDaemonCommand(node, daemon, confDir)
      == bin + " " + ("-f" + " " + (conf + " " + ("-d" + " " + ("-i" + " " + (pid + " " + (">" + " " + (out + " " + "2>&1")))))));
    LaunchLineFields(bin, conf, pid, out);
  }

  lemma LaunchLineFields(bin: string, conf: string, pid: string, out: string)
    requires IsWord(bin) && IsWord(conf) && IsWord(pid) && IsWord(out)
    ensures Fields(bin + " " + ("-f" + " " + (conf + " " + ("-d" + " " + ("-i" + " " + (pid + " " + (">" + " " + (out + " " + "2>&1"))))))))
      == [bin, "-f", conf, "-d", "-i", pid, ">", out, "2>&1"]
  {
    var tail := ">" + " " + (out + " " + "2>&1");
    var mid := "-d" + " " + ("-i" + " " + (pid + " " + tail));
    RedirectTailFields(out);
    assert IsWord("-d") && IsWord("-i");
    ThreeWordsThen("-d", "-i", pid, tail);
    assert Fields(mid) == ["-d", "-i", pid, ">", out, "2>&1"];
    assert IsWord("-f");
    ThreeWordsThen(bin, "-f", conf, mid);
  }

  lemma RedirectTailFields(out: string)
    requires IsWord(out)
    ensures Fields(">" + " " + (out + " " + "2>&1")) == [">", out, "2>&1"]
  {
    var redirect := "2>&1";
    assert IsWord(">") && IsWord(redirect);
    FieldsOfWord(redirect);
    TwoWordsThen(">", out, redirect);
  }

  /** For one node, different daemons get different pid files and different output files. */
  lemma FilesDetermineDaemon(node: string, d1: string, d2: string)
    requires PidPath(node, d1) == PidPath(node, d2) || OutPath(node, d1) == OutPath(node, d2)
    ensures d1 == d2
  {
    if PidPath(node, d1) == PidPath(node, d2) {
      MiddleCancel("/tmp/" + node + "-", d1, d2, ".pid");
    } else {
      MiddleCancel("/tmp/" + node + "-", d1, d2, ".out");
    }
  }

  /** The three daemons of the list get three distinct pid files and output files on each node. */
  lemma DaemonFilesDistinct(node: string)
    ensures forall i, j :: 0 <= i < j < |Daemons| ==>
      PidPath(node, Daemons[i]) != PidPath(node, Daemons[j]) &&
      OutPath(node, Daemons[i]) != OutPath(node, Daemons[j])
  {
    forall i, j | 0 <= i < j < |Daemons|
      ensures PidPath(node, Daemons[i]) != PidPath(node, Daemons[j])
      ensures OutPath(node, Daemons[i]) != OutPath(node, Daemons[j])
    {
      if PidPath(node, Daemons[i]) == PidPath(node, Daemons[j]) || OutPath(node, Daemons[i]) == OutPath(node, Daemons[j]) {
        FilesDetermineDaemon(node, Daemons[i], Daemons[j]);
      }
    }
  }

  /** With node names free of `-`, a pid file belongs to one (node, daemon) pair only. */
  lemma PidPathInjective(n1: string, d1: string, n2: string, d2: string)
    requires '-' !in n1 && '-' !in n2
    requires PidPath(n1, d1) == PidPath(n2, d2)
    ensures n1 == n2 && d1 == d2
  {
    var s := PidPath(n1, d1);
    assert s == "/tmp/" + (n1 + "-" + (d1 + ".pid"));
    assert s == "/tmp/" + (n2 + "-" + (d2 + ".pid"));
    assert s[5..] == n1 + "-" + (d1 + ".pid") == n2 + "-" + (d2 + ".pid");
    BeforeDashOf(n1, d1 + ".pid");
    BeforeDashOf(n2, d2 + ".pid");
    FilesDetermineDaemon(n1, d1, d2);
  }

  /** The `-i` and output-file words of a launch's `node.cmd` line are its pid and output files. */
  lemma LaunchLineFiles(a: Action)
    requires a.Launch? && IsWord(a.node) && IsWord(a.daemon) && IsWord(a.confDir)
    ensures var w := Fields(NodeLine(a));
      |w| == 9 && w[4] == "-i" && w[5] == PidPath(a.node, a.daemon) && w[7] == OutPath(a.node, a.daemon)
  {
    StartDaemonCommandFields(a.node, a.daemon, a.confDir);
  }

  /**
   * Over a whole run with `-`-free switch names, two launches that write the
   * same pid file are the same launch: no daemon of the run shares its pid
   * file (the `-i` argument of its `NodeLine`) with another.
   */
  lemma ScheduledPidFilesDistinct(switches: seq<string>, sc: ScenarioConf, a: Action, b: Action)
    requires Complete(sc)
    requires forall k :: 0 <= k < |switches| ==> '-' !in switches[k]
    requires a in Schedule(switches, sc) && a.Launch?
    requires b in Schedule(switches, sc) && b.Launch?
    ensures PidPath(a.node, a.daemon) == PidPath(b.node, b.daemon) ==> a == b
  {
    LaunchedExactlyWhenAssigned(switches, sc, a.node, a.daemon, a.confDir);
    LaunchedExactlyWhenAssigned(switches, sc, b.node, b.daemon, b.confDir);
    if PidPath(a.node, a.daemon) == PidPath(b.node, b.daemon) {
      PidPathInjective(a.node, a.daemon, b.node, b.daemon);
    }
  }

  /** A `-` in a node name lets two pairs share a pid file. */
  lemma DashedNamesShareFiles()
    ensures PidPath("R1-a", "zebra") == PidPath("R1", "a-zebra")
  {
  }

  lemma JoinDaemons()
    ensures JoinSpaces(Daemons) == "zebra staticd isisd"
  {
    assert Daemons[1..] == ["staticd", "isisd"];
    assert Daemons[1..][1..] == ["isisd"];
    assert JoinSpaces(["isisd"]) == "isisd";
    assert JoinSpaces(["staticd", "isisd"]) == "staticd" + " " + "isisd";
  }

  /** Both `killall` lines name the daemon list, space separated, in list order. */
  lemma KillCommandsText()
    ensures KillCommand() == "killall -9 zebra staticd isisd"
    ensures CleanupKillCommand() == "killall -9 zebra staticd isisd > /dev/null 2>&1"
  {
    JoinDaemons();
  }

  // The kill lines regrouped word by word; kept apart from the lemmas that
  // split them, where the solver would otherwise unfold `Fields` on the literals.
  lemma KillText(j: string)
    ensures "killall -9 " + j == "killall" + " " + ("-9" + " " + j)
    ensures "killall -9 " + j + " > /dev/null 2>&1" == "killall -9 " + j + " " + (">" + " " + ("/dev/null" + " " + "2>&1"))
  {
  }

  /** `killall` receives `-9` and then exactly the daemons of the list. */
  lemma KillCommandFields()
    ensures Fields(KillCommand()) == ["killall", "-9"] + Daemons
  {
    var j := JoinSpaces(Daemons);
    assert forall k :: 0 <= k < |Daemons| ==> IsWord(Daemons[k]);
    FieldsOfJoin(Daemons);
    KillText(j);
    assert IsWord("killall") && IsWord("-9");
    TwoWordsThen("killall", "-9", j);
  }

  /** The cleanup `killall` kills the same daemons and only adds the redirection. */
  lemma CleanupKillCommandFields()
    ensures Fields(CleanupKillCommand()) == ["killall", "-9"] + Daemons + [">", "/dev/null", "2>&1"]
  {
    KillCommandFields();
    KillText(JoinSpaces(Daemons));
    RedirectFields();
    FieldsAroundSpace(KillCommand(), ">" + " " + ("/dev/null" + " " + "2>&1"));
  }

  lemma RedirectFields()
    ensures Fields(">" + " " + ("/dev/null" + " " + "2>&1")) == [">", "/dev/null", "2>&1"]
  {
    var redirect := "2>&1";
    assert IsWord(">") && IsWord("/dev/null") && IsWord(redirect);
    TwoWordsThen(">", "/dev/null", redirect);
    FieldsOfWord(redirect);
  }

  /** `isis` needs two nodes; `plain` and `basic` run on every topology. */
  lemma SupportedPairs()
    ensures CheckSupported(OneNode, Isis).Err? && CheckSupported(TwoNodes, Isis).Ok?
    ensures forall t :: CheckSupported(t, Plain).Ok? && CheckSupported(t, Basic).Ok?
  {
  }

  // ---------------------------------------------------------------------------
  // Lemmas about the schedule

  lemma BlockOnNode(node: string, sc: ScenarioConf)
    requires Complete(sc)
    ensures forall p :: 0 <= p < |NodeBlock(node, sc)| ==>
      OnNode(NodeBlock(node, sc)[p]) && NodeBlock(node, sc)[p].node == node
  {
    LaunchesShape(node, sc, |Daemons|);
  }

  /** The launches for one node over the first `k` daemons are in list order. */
  lemma {:induction false} LaunchesShape(node: string, sc: ScenarioConf, k: nat)
    requires Complete(sc) && k <= |Daemons|
    ensures forall a :: a in LaunchesUpTo(node, sc, k) ==>
      a.Launch? && a.node == node && a.daemon in Daemons[..k]
    ensures LaunchesOrdered(LaunchesUpTo(node, sc, k))
  {
    if k > 0 {
      LaunchesShape(node, sc, k - 1);
      DaemonRanks();
      var prev := LaunchesUpTo(node, sc, k - 1);
      var d := Daemons[k - 1];
      assert Daemons[..k] == Daemons[..k - 1] + [d];
      if node in sc.nodes[d] {
        var last := Launch(node, d, sc.confDirs[d]);
        assert LaunchesUpTo(node, sc, k) == prev + [last];
        forall a | a in prev ensures DaemonRank(a.daemon) < DaemonRank(d) {
          assert a.daemon in Daemons[..k - 1];
        }
        AppendOrdered(prev, last);
      }
    }
  }

  /** Launches whose daemons are in strictly increasing list position. */
  predicate LaunchesOrdered(l: seq<Action>) {
    forall p, q :: 0 <= p < q < |l| ==>
      (l[p].Launch? && l[q].Launch? && DaemonRank(l[p].daemon) < DaemonRank(l[q].daemon))
  }

  lemma AppendOrdered(l: seq<Action>, last: Action)
    requires LaunchesOrdered(l) && last.Launch?
    requires forall a :: a in l ==> a.Launch? && DaemonRank(a.daemon) < DaemonRank(last.daemon)
    ensures LaunchesOrdered(l + [last])
  {
    var r := l + [last];
    forall p, q | 0 <= p < q < |r|
      ensures r[p].Launch? && r[q].Launch? && DaemonRank(r[p].daemon) < DaemonRank(r[q].daemon)
    {
      if q == |l| {
        assert r[p] in l;
      } else {
        assert r[p] == l[p] && r[q] == l[q];
      }
    }
  }

  /** Launch membership for one node over the first `k` daemons. */
  lemma {:induction false} LaunchesUpToExactly(node: string, sc: ScenarioConf, k: nat, n: string, d: string, c: string)
    requires Complete(sc) && k <= |Daemons|
    ensures Launch(n, d, c) in LaunchesUpTo(node, sc, k) <==>
      n == node && d in Daemons[..k] && n in sc.nodes[d] && c == sc.confDirs[d]
  {
    if k > 0 {
      LaunchesUpToExactly(node, sc, k - 1, n, d, c);
      assert Daemons[..k] == Daemons[..k - 1] + [Daemons[k - 1]];
    }
  }

  /**
   * A daemon is launched on a node, with a given directory, exactly when the
   * node is a switch, the scenario assigns the node to that daemon of the
   * list, and the directory is the scenario's directory for that daemon.
   */
  lemma {:induction false} LaunchedExactlyWhenAssigned(switches: seq<string>, sc: ScenarioConf, n: string, d: string, c: string)
    requires Complete(sc)
    ensures Launch(n, d, c) in Schedule(switches, sc) <==>
      n in switches && d in Daemons && n in sc.nodes[d] && c == sc.confDirs[d]
  {
    if switches != [] {
      var pre := switches[..|switches| - 1];
      var last := switches[|switches| - 1];
      LaunchedExactlyWhenAssigned(pre, sc, n, d, c);
      LaunchesUpToExactly(last, sc, |Daemons|, n, d, c);
      assert Daemons[..|Daemons|] == Daemons;
      assert switches == pre + [last];
    }
  }

  /**
   * Forwarding and loopback deletion are issued to exactly the switches whose
   * name starts with `R`, and no other command is sent with `node.cmd`.
   */
  lemma {:induction false} RouterCommandsExactly(switches: seq<string>, sc: ScenarioConf, n: string, c: string)
    requires Complete(sc)
    ensures NodeCmd(n, c) in Schedule(switches, sc) <==>
      n in switches && IsRouter(n) && (c == ForwardCmd || c == DropLoopbackCmd)
  {
    if switches != [] {
      var pre := switches[..|switches| - 1];
      var last := switches[|switches| - 1];
      RouterCommandsExactly(pre, sc, n, c);
      LaunchesShape(last, sc, |Daemons|);
      assert switches == pre + [last];
    }
  }

  /** Order of the actions of one node: daemons in list order, then forwarding, then loopback. */
  function Rank(a: Action): nat {
    match a
    case Launch(_, d, _) => DaemonRank(d)
    case NodeCmd(_, c) => if c == ForwardCmd then |Daemons| else |Daemons| + 1
    case _ => 0
  }

  /**
   * `a` is issued before `b`: it belongs to an earlier switch, or to the same
   * switch and comes earlier in that switch's order.
   */
  predicate Precedes(switches: seq<string>, a: Action, b: Action) {
    OnNode(a) && OnNode(b) && a.node in switches && b.node in switches &&
    (IndexOf(switches, a.node) < IndexOf(switches, b.node) ||
     (a.node == b.node && Rank(a) < Rank(b)))
  }

  lemma BlockOrdered(node: string, sc: ScenarioConf)
    requires Complete(sc)
    ensures var b := NodeBlock(node, sc);
      forall p, q :: 0 <= p < q < |b| ==>
        OnNode(b[p]) && OnNode(b[q]) && b[p].node == b[q].node == node && Rank(b[p]) < Rank(b[q])
  {
    var l := LaunchesUpTo(node, sc, |Daemons|);
    var rs := RouterSetup(node);
    var b := NodeBlock(node, sc);
    LaunchesShape(node, sc, |Daemons|);
    BlockOnNode(node, sc);
    LaunchRanksBelow(node, sc);
    RouterSetupRanks(node);
    assert b == l + rs;
    forall p, q | 0 <= p < q < |b| ensures Rank(b[p]) < Rank(b[q]) {
      if q < |l| {
        assert b[p] == l[p] && b[q] == l[q];
      } else if p < |l| {
        assert b[p] == l[p] && b[q] == rs[q - |l|];
      } else {
        assert b[p] == rs[p - |l|] && b[q] == rs[q - |l|];
      }
    }
  }

  lemma LaunchRanksBelow(node: string, sc: ScenarioConf)
    requires Complete(sc)
    ensures forall a :: a in LaunchesUpTo(node, sc, |Daemons|) ==> Rank(a) < |Daemons|
  {
    LaunchesShape(node, sc, |Daemons|);
    DaemonRanks();
    assert Daemons[..|Daemons|] == Daemons;
  }

  lemma RouterSetupRanks(node: string)
    ensures forall p :: 0 <= p < |RouterSetup(node)| ==> Rank(RouterSetup(node)[p]) == |Daemons| + p
  {
    assert ForwardCmd != DropLoopbackCmd by {
      assert |ForwardCmd| != |DropLoopbackCmd|;
    }
  }

  /**
   * The schedule runs switch by switch in the given order; within a switch the
   * daemons come in list order (zebra, staticd, isisd), then forwarding, then
   * loopback deletion. Every action of one switch precedes every action of the
   * next one.
   */
  lemma {:induction false} ScheduleOrdered(switches: seq<string>, sc: ScenarioConf)
    requires Complete(sc) && Distinct(switches)
    ensures InOrder(switches, Schedule(switches, sc))
  {
    if switches != [] {
      var pre := switches[..|switches| - 1];
      var last := switches[|switches| - 1];
      assert switches == pre + [last];
      ScheduleOrdered(pre, sc);
      BlockOrdered(last, sc);
      BlockOnNode(last, sc);
      IndexOfDistinct(switches, |switches| - 1);
      var head := Schedule(pre, sc);
      var b := NodeBlock(last, sc);
      var r := Schedule(switches, sc);
      assert r == head + b;
      forall x | x in pre ensures IndexOf(switches, x) == IndexOf(pre, x) {
        IndexOfPrefix(pre, [last], x);
      }
      forall p, q | 0 <= p < q < |r| ensures Precedes(switches, r[p], r[q]) {
        if q < |head| {
          assert r[p] == head[p] && r[q] == head[q];
          assert Precedes(pre, head[p], head[q]);
        } else if p < |head| {
          assert r[p] == head[p] && r[q] == b[q - |head|];
          assert head[p].node in pre;
        } else {
          assert r[p] == b[p - |head|] && r[q] == b[q - |head|];
        }
      }
    }
  }

  /** Every action of `r` precedes every later one. */
  predicate InOrder(switches: seq<string>, r: seq<Action>) {
    forall p, q :: 0 <= p < q < |r| ==> Precedes(switches, r[p], r[q])
  }

  /** Every name of `pre` has the same first position in `pre + tail`. */
  lemma IndexOfPrefix<T>(pre: seq<T>, tail: seq<T>, x: T)
    requires x in pre
    ensures IndexOf(pre + tail, x) == IndexOf(pre, x)
  {
    var s := pre + tail;
    var i, j := IndexOf(s, x), IndexOf(pre, x);
    assert forall k :: 0 <= k < |pre| ==> s[k] == pre[k];
    assert forall k :: 0 <= k < i ==> s[..i][k] == s[k];
    assert forall k :: 0 <= k < j ==> pre[..j][k] == pre[k];
  }

  /** Position of a daemon in the list (beyond the list for others). */
  function DaemonRank(d: string): nat {
    if d in Daemons then IndexOf(Daemons, d) else |Daemons|
  }

  lemma DaemonRanks()
    ensures forall k :: 0 <= k < |Daemons| ==> DaemonRank(Daemons[k]) == k
    ensures forall k, d :: 0 <= k < |Daemons| && d in Daemons[..k] ==> DaemonRank(d) < k
  {
    assert Distinct(Daemons);
    forall k | 0 <= k < |Daemons| ensures DaemonRank(Daemons[k]) == k {
      IndexOfDistinct(Daemons, k);
    }
  }

  lemma IndexOfDistinct<T>(s: seq<T>, k: nat)
    requires Distinct(s) && k < |s|
    ensures IndexOf(s, s[k]) == k
  {
    var i := IndexOf(s, s[k]);
    assert forall j :: 0 <= j < i ==> s[..i][j] == s[j];
  }

  /** The first position of `x` in `s`. */
  function IndexOf<T(==)>(s: seq<T>, x: T): (i: nat)
    requires x in s
    ensures i < |s| && s[i] == x && x !in s[..i]
  {
    if s[0] == x then 0 else 1 + IndexOf(s[1..], x)
  }

  predicate Distinct<T(==)>(s: seq<T>) {
    forall i, j :: 0 <= i < j < |s| ==> s[i] != s[j]
  }
}
