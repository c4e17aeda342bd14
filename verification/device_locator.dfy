/** `find_device`: on a POSIX host, run `mount` and then `/sbin/mount`, take
    the third field of every output line, and remember the last one that
    ends in `CIRCUITPY`.  Running a command is an input, `run`, so the
    locator is a pure function of the host's answers. */
module DeviceLocator {
  import opened Wrappers
  import opened MountTable
  import opened Sequences

  /** What `check_output(command)` did. */
  datatype CommandOutcome =
    | NotFound                   // FileNotFoundError: caught, the next command is tried
    | Failed                     // any other exception (non-zero exit status, ...): propagates
    | Output(stdout: seq<byte>)

  datatype LocateError =
    | UnsupportedOs(osName: string)       // NotImplementedError
    | CommandFailed(command: string)      // the exception of `check_output`
    | ShortMountLine(command: string)     // IndexError from `x.split()[2]`

  /** The commands run, in order, and what `find_device` returned or raised. */
  datatype Located = Located(invoked: seq<string>, result: Result<Option<seq<byte>>, LocateError>)

  const PosixName := "posix"

  const MountCommands: seq<string> := ["mount", "/sbin/mount"]

  /** The volume label looked for, `b"CIRCUITPY"`. */
  const DeviceLabel: seq<byte> := [67, 73, 82, 67, 85, 73, 84, 80, 89]

  /** `volume.endswith(b"CIRCUITPY")`. */
  predicate IsDeviceVolume(v: seq<byte>)
    ensures IsDeviceVolume(v) <==> exists stem :: v == stem + DeviceLabel
  {
    EndsWithConcat(v, DeviceLabel);
    EndsWith(v, DeviceLabel)
  }

  /** `[x.split()[2] for x in lines]`: all mount points, or `None` when some
      line is too short, before any of them is looked at. */
  function MountPoints(lines: seq<seq<byte>>): (r: Option<seq<seq<byte>>>)
    ensures r.Some? <==> forall i :: 0 <= i < |lines| ==> MountPoint(lines[i]).Some?
    ensures r.Some? ==> |r.value| == |lines|
    ensures r.Some? ==> forall i :: 0 <= i < |lines| ==> MountPoint(lines[i]) == Some(r.value[i])
  {
    if |lines| == 0 then Some([])
    else
      match MountPoint(lines[0])
      case None => None
      case Some(v) =>
        match MountPoints(lines[1..])
        case None => None
        case Some(vs) => Some([v] + vs)
  }

  /** The inner loop: `device_dir` is overwritten by every matching volume,
      so what survives is the last match, or what was found before. */
  function LastMatch(volumes: seq<seq<byte>>, found: Option<seq<byte>>): (r: Option<seq<byte>>)
    ensures (forall i :: 0 <= i < |volumes| ==> !IsDeviceVolume(volumes[i])) ==> r == found
    ensures (exists i :: 0 <= i < |volumes| && IsDeviceVolume(volumes[i])) ==>
      exists i :: 0 <= i < |volumes| && IsDeviceVolume(volumes[i]) && r == Some(volumes[i])
        && forall j :: i < j < |volumes| ==> !IsDeviceVolume(volumes[j])
    decreases |volumes|
  {
    if |volumes| == 0 then found
    else
      var r := LastMatch(volumes[1..], if IsDeviceVolume(volumes[0]) then Some(volumes[0]) else found);
      assert forall j :: 1 <= j < |volumes| ==> volumes[j] == volumes[1..][j - 1];
      r
  }

  /** The outer loop over the commands, carrying `device_dir` along. */
  function Scan(commands: seq<string>, run: string -> CommandOutcome, found: Option<seq<byte>>): (r: Located)
    ensures r.invoked <= commands
    ensures r.result.Success? ==> r.invoked == commands
    ensures r.result.Failure? ==>
      0 < |r.invoked| && !r.result.error.UnsupportedOs? && r.result.error.command == r.invoked[|r.invoked| - 1]
    decreases |commands|
  {
    if |commands| == 0 then Located([], Success(found))
    else
      var c := commands[0];
      assert commands == [c] + commands[1..];
      match run(c)
      case NotFound =>
        var rest := Scan(commands[1..], run, found);
        Located([c] + rest.invoked, rest.result)
      case Failed =>
        Located([c], Failure(CommandFailed(c)))
      case Output(stdout) =>
        match MountPoints(SplitLines(stdout))
        case None => Located([c], Failure(ShortMountLine(c)))
        case Some(volumes) =>
          var rest := Scan(commands[1..], run, LastMatch(volumes, found));
          Located([c] + rest.invoked, rest.result)
  }

  /** `find_device()` on the host named `osName`. */
  function FindDevice(osName: string, run: string -> CommandOutcome): (r: Located)
    ensures osName != PosixName ==> r == Located([], Failure(UnsupportedOs(osName)))
    ensures osName == PosixName ==> r.invoked <= MountCommands
    ensures osName == PosixName && r.result.Success? ==> r.invoked == MountCommands
    ensures r.result.Success? && r.result.value.Some? ==> IsDeviceVolume(r.result.value.value)
  {
    if osName == PosixName then
      var r := Scan(MountCommands, run, None);
      ScanFindsOnlyDevices(MountCommands, run, None);
      r
    else Located([], Failure(UnsupportedOs(osName)))
  }

  lemma {:induction false} ScanFindsOnlyDevices(commands: seq<string>, run: string -> CommandOutcome, found: Option<seq<byte>>)
    requires found.Some? ==> IsDeviceVolume(found.value)
    ensures var r := Scan(commands, run, found);
      r.result.Success? && r.result.value.Some? ==> IsDeviceVolume(r.result.value.value)
    decreases |commands|
  {
    if 0 < |commands| {
      match run(commands[0])
      case NotFound => ScanFindsOnlyDevices(commands[1..], run, found);
      case Failed =>
      case Output(stdout) =>
        match MountPoints(SplitLines(stdout))
        case None =>
        case Some(volumes) => ScanFindsOnlyDevices(commands[1..], run, LastMatch(volumes, found));
    }
  }

  // ---------------------------------------------------------------------
  // Reference: gather every mount point first, then pick the last match
  // ---------------------------------------------------------------------

  /** All mount points of the commands that ran, in order, or the first
      error raised. */
  function AllMountPoints(commands: seq<string>, run: string -> CommandOutcome): Result<seq<seq<byte>>, LocateError>
    decreases |commands|
  {
    if |commands| == 0 then Success([])
    else
      var c := commands[0];
      match run(c)
      case NotFound => AllMountPoints(commands[1..], run)
      case Failed => Failure(CommandFailed(c))
      case Output(stdout) =>
        match MountPoints(SplitLines(stdout))
        case None => Failure(ShortMountLine(c))
        case Some(volumes) =>
          match AllMountPoints(commands[1..], run)
          case Failure(e) => Failure(e)
          case Success(rest) => Success(volumes + rest)
  }

  lemma {:induction false} LastMatchAppend(a: seq<seq<byte>>, b: seq<seq<byte>>, found: Option<seq<byte>>)
    ensures LastMatch(a + b, found) == LastMatch(b, LastMatch(a, found))
    decreases |a|
  {
    if |a| == 0 {
      assert a + b == b;
    } else {
      assert (a + b)[0] == a[0];
      assert (a + b)[1..] == a[1..] + b;
      LastMatchAppend(a[1..], b, if IsDeviceVolume(a[0]) then Some(a[0]) else found);
    }
  }

  /** Once a volume matches, what was found before no longer matters. */
  lemma {:induction false} LastMatchForgetsEarlier(volumes: seq<seq<byte>>, f1: Option<seq<byte>>, f2: Option<seq<byte>>)
    requires exists i :: 0 <= i < |volumes| && IsDeviceVolume(volumes[i])
    ensures LastMatch(volumes, f1) == LastMatch(volumes, f2)
    decreases |volumes|
  {
    if !IsDeviceVolume(volumes[0]) {
      var i :| 0 <= i < |volumes| && IsDeviceVolume(volumes[i]);
      assert volumes[1..][i - 1] == volumes[i];
      LastMatchForgetsEarlier(volumes[1..], f1, f2);
    }
  }

  /** The streaming scan computes the same as gathering every mount point of
      every command that ran and taking the last match. */
  lemma {:induction false} ScanIsLastOfAll(commands: seq<string>, run: string -> CommandOutcome, found: Option<seq<byte>>)
    ensures Scan(commands, run, found).result ==
      match AllMountPoints(commands, run)
      case Success(vs) => Success(LastMatch(vs, found))
      case Failure(e) => Failure(e)
    decreases |commands|
  {
    if 0 < |commands| {
      match run(commands[0])
      case NotFound => ScanIsLastOfAll(commands[1..], run, found);
      case Failed =>
      case Output(stdout) =>
        match MountPoints(SplitLines(stdout))
        case None =>
        case Some(volumes) =>
          ScanIsLastOfAll(commands[1..], run, LastMatch(volumes, found));
          match AllMountPoints(commands[1..], run)
          case Failure(e) =>
          case Success(rest) => LastMatchAppend(volumes, rest, found);
    }
  }

  /** On a POSIX host `find_device` returns a path iff some mount point of
      some command that ran ends in `CIRCUITPY`, and then it is the last such
      mount point. */
  lemma FindDeviceIsLastMatch(run: string -> CommandOutcome, volumes: seq<seq<byte>>)
    requires AllMountPoints(MountCommands, run) == Success(volumes)
    ensures FindDevice(PosixName, run).invoked == MountCommands
    ensures FindDevice(PosixName, run).result.Success?
    ensures FindDevice(PosixName, run).result.value.Some? <==>
      exists i :: 0 <= i < |volumes| && IsDeviceVolume(volumes[i])
    ensures FindDevice(PosixName, run).result.value.Some? ==>
      exists i :: 0 <= i < |volumes| && FindDevice(PosixName, run).result.value.value == volumes[i]
        && IsDeviceVolume(volumes[i]) && forall j :: i < j < |volumes| ==> !IsDeviceVolume(volumes[j])
  {
    ScanIsLastOfAll(MountCommands, run, None);
  }

  /** When both commands run, a match in `/sbin/mount`'s output beats any in
      `mount`'s, because the loop never stops early. */
  lemma LaterCommandWins(run: string -> CommandOutcome, first: seq<seq<byte>>, second: seq<seq<byte>>)
    requires AllMountPoints([MountCommands[0]], run) == Success(first)
    requires AllMountPoints([MountCommands[1]], run) == Success(second)
    ensures FindDevice(PosixName, run).result == Success(
      if exists i :: 0 <= i < |second| && IsDeviceVolume(second[i])
      then LastMatch(second, None)
      else LastMatch(first, None))
  {
    AllMountPointsOfBoth(run, first, second);
    ScanIsLastOfAll(MountCommands, run, None);
    LastMatchAppend(first, second, None);
    if exists i :: 0 <= i < |second| && IsDeviceVolume(second[i]) {
      LastMatchForgetsEarlier(second, LastMatch(first, None), None);
    }
  }

  lemma AllMountPointsOfBoth(run: string -> CommandOutcome, first: seq<seq<byte>>, second: seq<seq<byte>>)
    requires AllMountPoints([MountCommands[0]], run) == Success(first)
    requires AllMountPoints([MountCommands[1]], run) == Success(second)
    ensures AllMountPoints(MountCommands, run) == Success(first + second)
  {
    var c0, c1 := MountCommands[0], MountCommands[1];
    assert MountCommands[1..] == [c1];
    assert [c0][1..] == [];
    match run(c0)
    case NotFound =>
      assert first == [];
      assert first + second == second;
    case Failed =>
    case Output(stdout) =>
      var volumes := MountPoints(SplitLines(stdout)).value;
      assert first == volumes + [];
      assert volumes + [] == volumes;
  }

  /** Without `mount` on the path, `/sbin/mount` is run next and its output
      alone decides. */
  lemma FallsBackToSbinMount(run: string -> CommandOutcome, stdout: seq<byte>, volumes: seq<seq<byte>>)
    requires run(MountCommands[0]) == NotFound
    requires run(MountCommands[1]) == Output(stdout)
    requires MountPoints(SplitLines(stdout)) == Some(volumes)
    ensures FindDevice(PosixName, run) == Located(MountCommands, Success(LastMatch(volumes, None)))
  {
    assert MountCommands[1..][1..] == [];
  }

  // ---------------------------------------------------------------------
  // The error message
  // ---------------------------------------------------------------------

  /** Python's `repr` of a string: single quotes unless the text holds a
      single quote and no double quote; backslash, the quote and the
      common control characters escaped. */
  function Repr(s: string): (r: string)
    ensures |r| >= |s| + 2
    ensures r[0] == r[|r| - 1] && (r[0] == '\'' || r[0] == '"')
    ensures r[0] == '"' <==> '\'' in s && '"' !in s
  {
    var q := if '\'' in s && '"' !in s then '"' else '\'';
    [q] + Escaped(s, q) + [q]
  }

  function EscapeChar(c: char, q: char): string {
    if c == '\\' then "\\\\"
    else if c == q then ['\\', q]
    else if c == '\n' then "\\n"
    else if c == '\r' then "\\r"
    else if c == '\t' then "\\t"
    else [c]
  }

  function Escaped(s: string, q: char): (r: string)
    ensures |r| >= |s|
  {
    if |s| == 0 then [] else EscapeChar(s[0], q) + Escaped(s[1..], q)
  }

  /** The text of the `NotImplementedError`: `OS {os.name!r} not supported.` */
  function UnsupportedMessage(osName: string): (m: string)
    ensures |m| >= |osName| + 20
    ensures m[..3] == "OS " && m[|m| - 15..] == " not supported."
    ensures m[3..|m| - 15] == Repr(osName)
  {
    var m := "OS " + Repr(osName) + " not supported.";
    assert m[..3] == "OS ";
    assert m[3..|m| - 15] == Repr(osName);
    assert m[|m| - 15..] == " not supported.";
    m
  }

  predicate PlainChar(c: char) {
    c != '\'' && c != '"' && c != '\\' && c != '\n' && c != '\r' && c != '\t'
  }

  lemma {:induction false} EscapedPlain(s: string, q: char)
    requires forall i :: 0 <= i < |s| ==> PlainChar(s[i])
    requires q == '\'' || q == '"'
    ensures Escaped(s, q) == s
    decreases |s|
  {
    if 0 < |s| {
      EscapedPlain(s[1..], q);
      assert s == [s[0]] + s[1..];
    }
  }

  /** For an ordinary name, such as `foo`, the message is
      `OS 'foo' not supported.` */
  lemma UnsupportedMessageOfPlainName(osName: string)
    requires forall i :: 0 <= i < |osName| ==> PlainChar(osName[i])
    ensures UnsupportedMessage(osName) == "OS '" + osName + "' not supported."
  {
    EscapedPlain(osName, '\'');
  }
}
