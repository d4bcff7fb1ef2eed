# route0 in Dafny

route0 is a pair of Python scripts that run small FRR routing scenarios in
Mininet and let an operator attach to an emulated node. This project models
the deterministic logic of both scripts and proves properties about it.

- **attach.py**: `get_pid` scans `ps aux` lines for the shell Mininet
  started for a node and returns its pid. `main` then picks the command to
  run there. That is either the `--cmd` tokens (default `sh`) or
  `telnet localhost <port>` for an FRR daemon taken from a fixed port table.
  The result is the line `mnexec -a <pid> <cmd>`.
- **route-0.py**: `start_daemon` formats the FRR launch line. `run` works
  through the switches in order. For each switch it goes through the daemon
  list `zebra, staticd, isisd`, launches the daemons the scenario assigns to
  that switch, and then enables forwarding and deletes the loopback address
  on nodes named `R…`. Both cleanup and teardown `killall` the daemon list.
  The entry point rejects a (topology, scenario) pair that is not in the
  `supported` table.

Files:

- `wrappers.dfy`: Option and Result.
- `text.dfy`: Python's argument-less `str.split()` (`Fields`), `' '.join`
  (`JoinSpaces`), substring occurrence, and decimal rendering of ports. The
  lemmas prove that splitting a space-joined list of words gives the list
  back, and that reading a rendered number gives the number back.
- `attach.dfy`: `get_pid` as a loop method (`GetPid`) proved against
  `FirstMatch` and `PidOf`. Also the port table, the session command and the
  `mnexec` line (`Attach`).
- `route.dfy`: command formats, the `supported` check, and `run` as a
  nested-loop method (`Run`, `StartNode`) proved against the `Schedule`
  function. Lemmas on `Schedule` give launch membership in both directions,
  router-command membership, and a strict order: by switch, then by daemon
  list position, then forwarding, then loopback deletion.

## Notes on the code's behaviour

- The line match (attach.py:13,18) is `re.match` of `.*bash .* mininet:<name>`.
  It is anchored at the start of the line but not at its end. So a query
  for `R1` also matches `R10`'s shell: `LongerNameMatchesPrefix` proves
  this, and `QueryR1ReturnsR10Pid` gives a two-line input where the query
  returns R10's pid.
- Both attach failures raise the same Python `KeyError` (attach.py:24 and
  the table lookup at attach.py:60). The model tells them apart as
  `NodeNotRunning` and `UnknownDaemon`.
- The status returned by `os.system` (attach.py:62) is ignored, so a
  failing `mnexec` is not reported.
- `run` has no try/finally (route-0.py:64-66). The model's action list ends
  with the teardown because `run` reaches it when nothing raises.
- The code does not check that scenario node names are switches of the
  topology, and neither does the model. A name that is not a switch is
  simply never launched (`LaunchedExactlyWhenAssigned`).
- The `--cmd` tokens are joined with single spaces (attach.py:45), so the
  token boundaries are lost. In the whitespace-separated words of the joined
  command, a token holding whitespace becomes several words and an empty
  token disappears (`SessionCommand`, `SpacedTokenSplits`).

## Model

| member | source | states |
|---|---|---|
| Text.Fields | attach.py:21 | `str.split()`: every field is non-empty and whitespace-free |
| Text.JoinSpaces | attach.py:45 | `' '.join(ws)`: the strings of `ws` with one space between neighbours, the empty string for no strings |
| Text.FieldsOfJoin | attach.py:45 | splitting `' '.join(words)` gives the words back (partner of the join used for `--cmd` and `killall`) |
| Text.FieldsOfJoinAny | attach.py:45 | for any strings, even empty ones or ones holding spaces, splitting the space-join splits each string in turn (`FieldsOfEach`, which is the list itself when every string is a word) |
| Text.ParseDecimalString | attach.py:60 | the port text rendered by `format` reads back as the port number |
| Text.DecimalStringInjective | attach.py:60 | different ports render to different text |
| Attach.FirstMatch | attach.py:16-20 | index of a matching line, with no earlier line matching; None only when no line matches |
| Attach.LineMatches | attach.py:13-18 | `re.match('.*bash .* mininet:<name>')` on a line: `bash ` occurs, and ` mininet:<name>` occurs starting at or after its end (the two occurrences do not overlap); nothing is required after the name |
| Attach.MatchingLineHasPid | attach.py:21 | a matching line always has a second field, so `split()[1]` cannot fail |
| Attach.PidOf | attach.py:16-24 | fails with NodeNotRunning exactly when no line matches; otherwise yields a whitespace-free pid |
| Attach.GetPid | attach.py:9-24 | the loop returns the second field of the first matching line, or NodeNotRunning when none matches |
| Attach.Ports | attach.py:47-58 | `port_dict`: the ten daemon names `zebrasrv` … `staticd` with the ports 2600 to 2608 and 2616 |
| Attach.PidIgnoresLaterLines | attach.py:16-22 | once a line matches, appending more lines does not change the result |
| Attach.MatchIgnoresTail | attach.py:13 | the match is not end-anchored: text after the name keeps the line matching |
| Attach.LongerNameMatchesPrefix | attach.py:13-18 | a line for node `name+ext` (e.g. R10) also matches the query `name` (R1) |
| Attach.QueryR1ReturnsR10Pid | attach.py:13-22 | with R10's shell listed first, the query for R1 returns R10's pid |
| Attach.PortsInjective | attach.py:47-58 | no two daemons of the table share a port |
| Attach.TelnetCommand | attach.py:60 | unknown daemon yields UnknownDaemon; a known one yields the words `telnet localhost <port>` |
| Attach.TelnetPortRoundTrip | attach.py:60 | the third word of the telnet command parses back to the daemon's table port |
| Attach.TelnetCommandInjective | attach.py:47-60 | different daemons give different telnet commands |
| Attach.OspfdPort | attach.py:52-60 | `ospfd` gives exactly `telnet localhost 2604` |
| Attach.SessionCommand | attach.py:45-60 | `--daemon` yields the telnet command or UnknownDaemon; otherwise Ok, and the whitespace-separated words (`str.split()`) of the command are those of each `--cmd` token in turn (the tokens themselves when they are words) |
| Attach.SpacedTokenSplits | attach.py:39-45 | the single token `ip addr` gives the command `ip addr`, whose whitespace-separated words are `ip`, `addr` |
| Attach.DefaultSessionIsSh | attach.py:37-45 | with neither `--daemon` nor `--cmd` the command is `sh` |
| Attach.DaemonOverridesCmd | attach.py:45-60 | with `--daemon` the result does not depend on `--cmd` |
| Attach.ExecLine | attach.py:62 | the `os.system` line: `mnexec -a `, the pid, one space, the session command |
| Attach.ExecLineFields | attach.py:62 | the whitespace-separated words (`str.split()`) of the line are `mnexec`, `-a`, the pid as one word, then the command's words |
| Attach.Attach | attach.py:44-62 | unknown node is reported before an unknown daemon; on success the line is `mnexec -a <pid> <cmd>` |
| Route.Daemons | route-0.py:32-36 | the daemon list `zebra`, `staticd`, `isisd`, in launch order |
| Route.StartDaemonCommand | route-0.py:19-24 | the `start_daemon` line: `/usr/lib/frr/<daemon> -f <dir>/<node>.conf -d -i /tmp/<node>-<daemon>.pid > /tmp/<node>-<daemon>.out 2>&1`, for any strings |
| Route.StartDaemonCommandFields | route-0.py:19-24 | the whitespace-separated words of the launch line are the binary, `-f <dir>/<node>.conf`, `-d`, `-i /tmp/<node>-<daemon>.pid`, `> /tmp/<node>-<daemon>.out 2>&1` |
| Route.FilesDetermineDaemon | route-0.py:22-23 | on one node, the pid file and the output file each determine the daemon |
| Route.DaemonFilesDistinct | route-0.py:19-36 | the three daemons of the list get three distinct pid files and output files per node |
| Route.PidPathInjective | route-0.py:22 | with `-`-free node names, a pid file belongs to one (node, daemon) pair |
| Route.DashedNamesShareFiles | route-0.py:22 | a `-` in a node name lets two pairs share a pid file |
| Route.KillCommand | route-0.py:66 | the teardown line: `killall -9 ` and the daemon list joined with single spaces |
| Route.CleanupKillCommand | route-0.py:41 | the cleanup line: the teardown line followed by ` > /dev/null 2>&1` |
| Route.KillCommandsText | route-0.py:41-66 | both kill lines are `killall -9 zebra staticd isisd` (cleanup adds the redirection) |
| Route.KillCommandFields | route-0.py:66 | the words of the teardown line are `killall`, `-9`, then exactly the daemon list in order |
| Route.CleanupKillCommandFields | route-0.py:41 | cleanup kills the same daemons and adds only `> /dev/null 2>&1` |
| Route.Supported | route-0.py:81-84 | `supported`: `plain` and `basic` for `one_node`; `plain`, `basic` and `isis` for `two_nodes` |
| Route.UnsupportedMessage | route-0.py:97-98 | the `ValueError` text: `Scenario "<scenario>" is not supported for topology "<topology>"` |
| Route.CheckSupported | route-0.py:96-98 | accepted iff the scenario is in the topology's supported set; the error quotes both names |
| Route.MessageNames | route-0.py:97-98 | the rejection message contains the quoted scenario and the quoted topology |
| Route.SupportedPairs | route-0.py:81-84 | `one_node`/`isis` is rejected, `two_nodes`/`isis` accepted, `plain` and `basic` accepted everywhere |
| Route.IsRouter | route-0.py:55 | `node.name.startswith('R')`: the name is non-empty and its first character is `R` |
| Route.Prologue | route-0.py:41-45 | `run` before the switch loop: the cleanup kill, the network start, the scenario setup |
| Route.Epilogue | route-0.py:64-66 | `run` after the switch loop: the CLI, the network stop, the teardown kill |
| Route.NodeLine | route-0.py:53-61 | the line `node.cmd` receives: a launch stands for the `start_daemon` line of its triple, a node command for its own text |
| Route.LaunchLineFiles | route-0.py:19-24 | for word-valued names, the word after `-i` in a launch's line is its pid file and the redirection target is its output file |
| Route.ScheduledPidFilesDistinct | route-0.py:19-53 | with `-`-free switch names, two launches of one run that write the same pid file are the same launch |
| Route.Schedule | route-0.py:49-62 | every per-switch action is a launch or node command on one of the switches |
| Route.LaunchesShape | route-0.py:50-53 | a node's launches are its own and follow the daemon list order |
| Route.StartNode | route-0.py:50-62 | the loop body appends the node's launches in list order, then the router commands |
| Route.Run | route-0.py:28-66 | cleanup kill, network start, scenario setup, the schedule, interaction, stop, teardown kill |
| Route.LaunchedExactlyWhenAssigned | route-0.py:50-53 | (node, daemon, dir) is launched iff node is a switch assigned to that listed daemon and dir is the scenario's dir for it |
| Route.RouterCommandsExactly | route-0.py:55-62 | forwarding and loopback deletion go exactly to switches named `R…`, and nothing else goes through `node.cmd` |
| Route.BlockOrdered | route-0.py:49-62 | within one node: zebra, staticd, isisd, then forwarding, then loopback deletion |
| Route.ScheduleOrdered | route-0.py:49-62 | with distinct switch names, every action of a switch precedes every action of later switches, and a node's own actions are strictly ordered |
| Route.Start | route-0.py:96-101 | an unsupported pair is rejected with the message before any action; otherwise the result is the action list of `run` |

## Left out

- Running `ps aux`, `os.system`, `node.cmd`/`waitOutput`, `mnexec` and
  `telnet`: the model takes the `ps` lines as input and returns the strings
  these calls would receive.
- Mininet (`Mininet`, `net.start`/`stop`, `CLI`), `scenario.setup`, the
  `Router` class and the topology and scenario classes. These are not part of
  this model. They appear only as marker actions, as the switch-name
  sequence, and as the scenario's daemon-to-nodes and daemon-to-directory
  maps. Node identity is the node's name.
- The `rm -f /tmp/R*…`, `rm -f /tmp/h*…` and `mn -c` cleanup lines are
  filesystem and emulator side effects. They are not in the action list.
- argparse parsing and its `choices` checks: topologies and scenarios are
  closed enumerations, and `--cmd` absent is `None`.
- General regex semantics: the node name is taken literally (plain names
  without regex metacharacters). The `.` of the pattern does not match a
  newline; lines are taken as already decoded, without newlines. The
  `str(bytes)` rendering of `ps` output is not modelled.
- Whitespace for `str.split()` is the ASCII set Python uses (space, `\t`
  to `\r`, `\x1c` to `\x1f`). Non-ASCII whitespace is not modelled. The
  `ps` lines never contain it: attach.py:17 does not decode, and
  `str(bytes)` escapes every non-ASCII byte, so the searched text is pure
  ASCII. `--cmd` tokens are treated the same way.
- The POSIX shell that `os.system` (attach.py:62) and `node.cmd`
  (route-0.py:19, 57, 61) hand the line to is not modelled. Its quoting,
  backslash escapes, metacharacters (`;`, `|`, `$`, globs, redirections)
  and splitting on space, tab and newline only are left out. All lemmas
  about the words of a command line (the `…Fields` lemmas,
  `SessionCommand`, `SpacedTokenSplits`) speak of Python's `str.split()`.
  That is the argument list the program receives only when the words hold
  none of those characters and no other whitespace. For example, the token
  `vtysh -c 'show ip route'` gives five `str.split()` words, while the shell
  passes `vtysh` the two arguments `-c` and `show ip route`.
- Route.Start and Route.Run: these require the scenario to give, for every
  listed daemon, both its node set and its configuration directory
  (`Complete`). This is stronger than the code. route-0.py:52 reads
  `<daemon>_conf` only for a switch the daemon is assigned to
  (route-0.py:51), and with no switches neither attribute is read. So a
  scenario without `isisd_conf` that assigns no switch to `isisd` runs
  without error. The action list does not depend on this: `StartNode`
  reads a daemon's directory only for assigned nodes, so any placeholder
  directory gives the same actions. The `AttributeError` that a missing
  attribute raises when it is read is not modelled.
- Route.ScheduleOrdered: assumes distinct switch names, as Mininet
  guarantees.
