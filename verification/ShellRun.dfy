/**
  Running a parsed command line (ns-3.15/waf-tools/shellcmd.py): the interpreter loop is a right-nested short-circuit
  evaluator, which is what a shell does exactly on the command lines that LikeShellIff names.
*/
module ShellRun {
  import opened Wrappers
  import opened ShellPipeline

  datatype Input = Terminal | FromFile(name: string) | FromProcess(i: nat)

  /** A process that has been started. */
  datatype Launch = Launch(argv: seq<string>, env: seq<(string, string)>, cwd: string, stdin: Input, stdout: Output,
                           stderr: Output)

  /** The exit code of the i-th process, given all that have been started. */
  type World = (seq<Launch>, nat) -> int

  /** How a run ends: with an exit code, with an exception, or by running out of commands. */
  datatype Ending = Exit(code: int) | Raised | NoValue

  datatype Run = Run(trace: seq<Launch>, end: Ending)

  /** os.path.join, for paths with '/'. */
  function JoinPath(cwd: string, dir: string): string {
    if dir != "" && dir[0] == '/' then dir
    else if cwd == "" || cwd[|cwd| - 1] == '/' then cwd + dir
    else cwd + "/" + dir
  }

  /** An absolute path stands for itself; another one is put behind the directory, with one '/' between the two. */
  lemma JoinedPath(cwd: string, dir: string)
    ensures "/" <= dir ==> JoinPath(cwd, dir) == dir
    ensures !("/" <= dir) ==> JoinPath("", dir) == dir
    ensures !("/" <= dir) && cwd != "" && cwd[|cwd| - 1] != '/' ==>
              JoinPath(cwd, dir) == cwd + "/" + dir && JoinPath(cwd + "/", dir) == cwd + "/" + dir
  {
  }

  /** To go to one directory and from there to another is to go where the two paths together lead. */
  lemma JoinAssociates(cwd: string, dir: string, dir1: string)
    ensures JoinPath(JoinPath(cwd, dir), dir1) == JoinPath(cwd, JoinPath(dir, dir1))
  {
    var a, b := Ended(cwd), Ended(dir);
    JoinIsEnded(cwd, dir);
    JoinIsEnded(dir, dir1);
    JoinIsEnded(JoinPath(cwd, dir), dir1);
    JoinIsEnded(cwd, JoinPath(dir, dir1));
    hide JoinPath;
    if !IsAbsolute(dir1) && !IsAbsolute(dir) {
      EndedJoin(a, dir);
      assert a + (b + dir1) == (a + b) + dir1;
    }
  }

  predicate IsAbsolute(dir: string) {
    dir != "" && dir[0] == '/'
  }

  /** A path to a directory with a '/' at its end. */
  function Ended(dir: string): string {
    if dir == "" || dir[|dir| - 1] == '/' then dir else dir + "/"
  }

  lemma JoinIsEnded(cwd: string, dir: string)
    ensures JoinPath(cwd, dir) == if IsAbsolute(dir) then dir else Ended(cwd) + dir
    ensures IsAbsolute(JoinPath(cwd, dir)) <==> IsAbsolute(dir) || IsAbsolute(cwd)
  {
  }

  lemma EndedJoin(a: string, dir: string)
    requires a == Ended(a)
    ensures Ended(a + dir) == a + Ended(dir)
  {
  }

  function InputOf(c: Command, piped: seq<nat>, inPipe: bool): Input {
    if inPipe && piped != [] then FromProcess(piped[|piped| - 1])
    else if c.stdin.Some? then FromFile(c.stdin.value)
    else Terminal
  }

  function LaunchOf(c: Command, cwd: string, stdin: Input): Launch {
    Launch(c.argv, c.env, cwd, stdin, c.stdout, c.stderr)
  }

  /** All processes of a pipe are waited for; the last one's code is returned unless all are zero. */
  function WaitAll(piped: seq<nat>, trace: seq<Launch>, world: World): int {
    if piped != [] && exists i :: 0 <= i < |piped| && world(trace, piped[i]) != 0 then world(trace, piped[|piped| - 1])
    else 0
  }

  method ExecPipedCommands(piped: seq<nat>, trace: seq<Launch>, world: World) returns (retval: int)
    ensures retval == WaitAll(piped, trace, world)
    ensures piped != [] ==> retval == world(trace, piped[|piped| - 1])
  {
    var retvals := [];
    for i := 0 to |piped|
      invariant |retvals| == i && forall j :: 0 <= j < i ==> retvals[j] == world(trace, piped[j])
    {
      retvals := retvals + [world(trace, piped[i])];
    }
    retval := 0;
    for i := 0 to |retvals|
      invariant retval == 0 && forall j :: 0 <= j < i ==> retvals[j] == 0
    {
      if retvals[i] != 0 {
        return retvals[|retvals| - 1];
      }
    }
  }

  lemma LastDecides(piped: seq<nat>, trace: seq<Launch>, world: World)
    requires piped != []
    ensures WaitAll(piped, trace, world) == world(trace, piped[|piped| - 1])
  {
  }

  // ---------------------------------------------------------------- the interpreter loop

  /** One turn of the loop and the turns after it. */
  function RunFrom(nodes: seq<Node>, cwd: string, piped: seq<nat>, inPipe: bool, trace: seq<Launch>, world: World): Run
    decreases |nodes|
  {
    if nodes == [] then Run(trace, NoValue)
    else
      match nodes[0]
      case Chdir(dir) =>
        if |nodes| == 1 || !nodes[1].And? || dir.None? then Run(trace, Raised)
        else RunFrom(nodes[2..], JoinPath(cwd, dir.value), piped, inPipe, trace, world)
      case Cmd(c) =>
        var trace1 := trace + [LaunchOf(c, cwd, InputOf(c, piped, inPipe))];
        var piped1 := piped + [|trace|];
        if |nodes| == 1 then Run(trace1, Exit(WaitAll(piped1, trace1, world)))
        else if nodes[1].Pipe? then RunFrom(nodes[2..], cwd, piped1, true, trace1, world)
        else if nodes[1].Or? || nodes[1].And? then
          var status := WaitAll(piped1, trace1, world);
          if (status == 0) == nodes[1].Or? then Run(trace1, Exit(status))
          else RunFrom(nodes[2..], cwd, [], false, trace1, world)
        else RunFrom(nodes[2..], cwd, piped1, inPipe, trace1, world)
      case _ => Run(trace, Raised)
  }

  method RunPipeline(pipeline: seq<Node>, world: World) returns (run: Run)
    ensures run == RunFrom(pipeline, ".", [], false, [], world)
  {
    var nodes, cwd, inPipe := pipeline, ".", false;
    var piped: seq<nat>, trace: seq<Launch> := [], [];
    while nodes != []
      invariant RunFrom(nodes, cwd, piped, inPipe, trace, world) == RunFrom(pipeline, ".", [], false, [], world)
      decreases |nodes|
    {
      var node := nodes[0];
      if node.Chdir? {
        if |nodes| == 1 || !nodes[1].And? || node.dir.None? {
          return Run(trace, Raised);
        }
        cwd := JoinPath(cwd, node.dir.value);
      } else if node.Cmd? {
        piped, trace := piped + [|trace|], trace + [LaunchOf(node.c, cwd, InputOf(node.c, piped, inPipe))];
        if |nodes| == 1 || nodes[1].Or? || nodes[1].And? {
          var status := ExecPipedCommands(piped, trace, world);
          if |nodes| == 1 || (status == 0) == nodes[1].Or? {
            return Run(trace, Exit(status));
          }
          piped, inPipe := [], false;
        } else if nodes[1].Pipe? {
          inPipe := true;
        }
      } else {
        return Run(trace, Raised);
      }
      nodes := nodes[2..];
    }
    run := Run(trace, NoValue);
  }

  // ---------------------------------------------------------------- the structure of a command line

  /** A command and the changes of directory before it. */
  datatype Part = Part(dirs: seq<string>, c: Command)

  /** Pipes, joined by && and ||. */
  datatype Line = Last(pipe: seq<Part>) | AndThen(pipe: seq<Part>, rest: Line) | OrElse(pipe: seq<Part>, rest: Line)

  /** Every change of directory names one and has a command after it. */
  predicate GoodCds(nodes: seq<Node>) {
    forall i :: 0 <= i < |nodes| && nodes[i].Chdir? ==> nodes[i].dir.Some? && i + 1 < |nodes|
  }

  function WithPart(p: Part, line: Line): Line {
    match line
    case Last(pipe) => Last([p] + pipe)
    case AndThen(pipe, rest) => AndThen([p] + pipe, rest)
    case OrElse(pipe, rest) => OrElse([p] + pipe, rest)
  }

  function WithDir(dir: string, line: Line): Line {
    if line.pipe == [] then line else
    var pipe := [Part([dir] + line.pipe[0].dirs, line.pipe[0].c)] + line.pipe[1..];
    match line
    case Last(_) => Last(pipe)
    case AndThen(_, rest) => AndThen(pipe, rest)
    case OrElse(_, rest) => OrElse(pipe, rest)
  }

  function LineOf(nodes: seq<Node>): (line: Line)
    requires Alternates(nodes) && GoodCds(nodes)
    ensures line.pipe != []
  {
    if |nodes| == 1 then Last([Part([], nodes[0].c)])
    else
      var rest := LineOf(nodes[2..]);
      match nodes[0]
      case Chdir(dir) => WithDir(dir.value, rest)
      case Cmd(c) =>
        if nodes[1].Pipe? then WithPart(Part([], c), rest)
        else if nodes[1].And? then AndThen([Part([], c)], rest)
        else OrElse([Part([], c)], rest)
  }

  /** The command line that a structure stands for. */
  function Dirs(dirs: seq<string>): seq<Node> {
    if dirs == [] then [] else [Chdir(Some(dirs[0])), And] + Dirs(dirs[1..])
  }

  function PipeNodes(pipe: seq<Part>): seq<Node> {
    if pipe == [] then []
    else Dirs(pipe[0].dirs) + [Cmd(pipe[0].c)] + if |pipe| == 1 then [] else [Pipe] + PipeNodes(pipe[1..])
  }

  function LineNodes(line: Line): seq<Node> {
    match line
    case Last(pipe) => PipeNodes(pipe)
    case AndThen(pipe, rest) => PipeNodes(pipe) + [And] + LineNodes(rest)
    case OrElse(pipe, rest) => PipeNodes(pipe) + [Or] + LineNodes(rest)
  }

  lemma {:induction false} LineOfIsLine(nodes: seq<Node>)
    requires Alternates(nodes) && GoodCds(nodes)
    ensures LineNodes(LineOf(nodes)) == nodes
  {
    hide PipeNodes, Dirs, WithDir, WithPart;
    if |nodes| == 1 {
      OneNode(nodes[0].c);
    } else {
      var rest := LineOf(nodes[2..]);
      LineOfIsLine(nodes[2..]);
      assert nodes == [nodes[0], nodes[1]] + nodes[2..];
      match nodes[0]
      case Chdir(dir) => DirNodes(dir.value, rest);
      case Cmd(c) =>
        OneNode(c);
        if nodes[1].Pipe? {
          PartNodes(c, rest);
        }
    }
  }

  lemma OneNode(c: Command)
    ensures PipeNodes([Part([], c)]) == [Cmd(c)]
  {
    assert Dirs([]) == [];
  }

  lemma {:induction false} DirNodes(dir: string, line: Line)
    requires line.pipe != []
    ensures LineNodes(WithDir(dir, line)) == [Chdir(Some(dir)), And] + LineNodes(line)
  {
    var pipe := line.pipe;
    var pipe1 := [Part([dir] + pipe[0].dirs, pipe[0].c)] + pipe[1..];
    DirPipe(dir, pipe, pipe1);
    hide PipeNodes, Dirs;
    NodesBefore([Chdir(Some(dir)), And], line, WithDir(dir, line));
  }

  lemma {:induction false} DirPipe(dir: string, pipe: seq<Part>, pipe1: seq<Part>)
    requires pipe != [] && pipe1 == [Part([dir] + pipe[0].dirs, pipe[0].c)] + pipe[1..]
    ensures PipeNodes(pipe1) == [Chdir(Some(dir)), And] + PipeNodes(pipe)
  {
    assert pipe1[1..] == pipe[1..];
    assert ([dir] + pipe[0].dirs)[1..] == pipe[0].dirs;
  }

  lemma {:induction false} PartNodes(c: Command, line: Line)
    requires line.pipe != []
    ensures LineNodes(WithPart(Part([], c), line)) == [Cmd(c), Pipe] + LineNodes(line)
  {
    PartPipe(c, line.pipe, [Part([], c)] + line.pipe);
    hide PipeNodes, Dirs;
    NodesBefore([Cmd(c), Pipe], line, WithPart(Part([], c), line));
  }

  lemma {:induction false} PartPipe(c: Command, pipe: seq<Part>, pipe1: seq<Part>)
    requires pipe != [] && pipe1 == [Part([], c)] + pipe
    ensures PipeNodes(pipe1) == [Cmd(c), Pipe] + PipeNodes(pipe)
  {
    assert pipe1[1..] == pipe && Dirs([]) == [];
  }

  /** What comes before the first pipe of a line comes before the line. */
  lemma {:induction false} NodesBefore(first: seq<Node>, line: Line, line1: Line)
    requires PipeNodes(line1.pipe) == first + PipeNodes(line.pipe)
    requires match line
             case Last(_) => line1.Last?
             case AndThen(_, rest) => line1.AndThen? && line1.rest == rest
             case OrElse(_, rest) => line1.OrElse? && line1.rest == rest
    ensures LineNodes(line1) == first + LineNodes(line)
  {
    hide PipeNodes;
    if !line.Last? {
      var op := [if line.AndThen? then And else Or];
      assert first + PipeNodes(line.pipe) + op + LineNodes(line.rest)
          == first + (PipeNodes(line.pipe) + op + LineNodes(line.rest));
    }
  }

  // ---------------------------------------------------------------- the evaluator

  function InDirs(cwd: string, dirs: seq<string>): string
    decreases dirs
  {
    if dirs == [] then cwd else InDirs(JoinPath(cwd, dirs[0]), dirs[1..])
  }

  /** Starts the commands of a pipe, each reading from the one before; prev is the process before the first. */
  function StartPipe(pipe: seq<Part>, cwd: string, prev: Option<nat>, trace: seq<Launch>): (seq<Launch>, string)
    decreases pipe
  {
    if pipe == [] then (trace, cwd) else
    var cwd1, c := InDirs(cwd, pipe[0].dirs), pipe[0].c;
    var stdin := if prev.Some? then FromProcess(prev.value)
                 else if c.stdin.Some? then FromFile(c.stdin.value) else Terminal;
    StartPipe(pipe[1..], cwd1, Some(|trace|), trace + [LaunchOf(c, cwd1, stdin)])
  }

  /** The status of a pipe is that of its last command. */
  function StatusOf(trace: seq<Launch>, world: World): int {
    if trace == [] then 0 else world(trace, |trace| - 1)
  }

  /** Right-nested and short-circuiting: when a pipe decides, nothing after it is run. */
  function Evaluate(line: Line, cwd: string, prev: Option<nat>, trace: seq<Launch>, world: World): Run
    decreases line
  {
    var (trace1, cwd1) := StartPipe(line.pipe, cwd, prev, trace);
    var status := StatusOf(trace1, world);
    match line
    case Last(_) => Run(trace1, Exit(status))
    case AndThen(_, rest) => if status != 0 then Run(trace1, Exit(status)) else Evaluate(rest, cwd1, None, trace1, world)
    case OrElse(_, rest) => if status == 0 then Run(trace1, Exit(status)) else Evaluate(rest, cwd1, None, trace1, world)
  }

  lemma {:induction false} EvaluateDir(dir: string, line: Line, cwd: string, prev: Option<nat>, trace: seq<Launch>,
                                       world: World)
    requires line.pipe != []
    ensures Evaluate(WithDir(dir, line), cwd, prev, trace, world) == Evaluate(line, JoinPath(cwd, dir), prev, trace, world)
  {
    var pipe := line.pipe;
    var pipe1 := [Part([dir] + pipe[0].dirs, pipe[0].c)] + pipe[1..];
    assert pipe1[1..] == pipe[1..];
    assert ([dir] + pipe[0].dirs)[1..] == pipe[0].dirs;
    assert InDirs(cwd, [dir] + pipe[0].dirs) == InDirs(JoinPath(cwd, dir), pipe[0].dirs);
    assert StartPipe(pipe1, cwd, prev, trace) == StartPipe(pipe, JoinPath(cwd, dir), prev, trace);
  }

  lemma {:induction false} EvaluatePart(c: Command, line: Line, cwd: string, prev: Option<nat>, trace: seq<Launch>,
                                        world: World,
                     stdin: Input)
    requires stdin == if prev.Some? then FromProcess(prev.value)
                      else if c.stdin.Some? then FromFile(c.stdin.value) else Terminal
    ensures Evaluate(WithPart(Part([], c), line), cwd, prev, trace, world)
         == Evaluate(line, cwd, Some(|trace|), trace + [LaunchOf(c, cwd, stdin)], world)
  {
    var pipe1 := [Part([], c)] + line.pipe;
    assert pipe1[1..] == line.pipe && InDirs(cwd, []) == cwd;
    assert StartPipe(pipe1, cwd, prev, trace)
        == StartPipe(line.pipe, cwd, Some(|trace|), trace + [LaunchOf(c, cwd, stdin)]);
  }

  /** A pipe of one command. */
  lemma {:induction false} StartOne(c: Command, cwd: string, prev: Option<nat>, trace: seq<Launch>, stdin: Input)
    requires stdin == if prev.Some? then FromProcess(prev.value)
                      else if c.stdin.Some? then FromFile(c.stdin.value) else Terminal
    ensures StartPipe([Part([], c)], cwd, prev, trace) == (trace + [LaunchOf(c, cwd, stdin)], cwd)
  {
    var pipe := [Part([], c)];
    assert pipe[1..] == [] && InDirs(cwd, []) == cwd;
    assert StartPipe([], cwd, Some(|trace|), trace + [LaunchOf(c, cwd, stdin)])
        == (trace + [LaunchOf(c, cwd, stdin)], cwd);
  }

  /** The loop returns what the evaluator returns, having started the same processes. */
  lemma {:induction false} LoopEvaluates(nodes: seq<Node>, cwd: string, piped: seq<nat>, inPipe: bool,
                                         trace: seq<Launch>, world: World, prev: Option<nat>)
    requires Alternates(nodes) && GoodCds(nodes)
    requires if inPipe then piped != [] && prev == Some(piped[|piped| - 1]) else piped == [] && prev == None
    ensures RunFrom(nodes, cwd, piped, inPipe, trace, world) == Evaluate(LineOf(nodes), cwd, prev, trace, world)
    decreases |nodes|
  {
    match nodes[0]
    case Chdir(dir) =>
      EvaluateDir(dir.value, LineOf(nodes[2..]), cwd, prev, trace, world);
      LoopEvaluates(nodes[2..], JoinPath(cwd, dir.value), piped, inPipe, trace, world, prev);
    case Cmd(c) =>
      var stdin := InputOf(c, piped, inPipe);
      var trace1, piped1 := trace + [LaunchOf(c, cwd, stdin)], piped + [|trace|];
      LastDecides(piped1, trace1, world);
      StartOne(c, cwd, prev, trace, stdin);
      if |nodes| > 1 {
        if nodes[1].Pipe? {
          EvaluatePart(c, LineOf(nodes[2..]), cwd, prev, trace, world, stdin);
          LoopEvaluates(nodes[2..], cwd, piped1, true, trace1, world, Some(|trace|));
        } else {
          LoopEvaluates(nodes[2..], cwd, [], false, trace1, world, None);
        }
      }
  }

  lemma RunEvaluates(tokens: seq<string>, world: World)
    requires Parsed(tokens).Some? && GoodCds(Parsed(tokens).value)
    ensures Alternates(Parsed(tokens).value)
    ensures RunFrom(Parsed(tokens).value, ".", [], false, [], world)
         == Evaluate(LineOf(Parsed(tokens).value), ".", None, [], world)
  {
    ParsedAlternates(tokens);
    LoopEvaluates(Parsed(tokens).value, ".", [], false, [], world, None);
  }

  // ---------------------------------------------------------------- when a run fails

  /**
    The codes with which every command is reached: failure before ||, success before &&.  At the operator at place stop
    it is the other way round.
  */
  function Lead(nodes: seq<Node>, stop: int, i: nat): int
    decreases |nodes|
  {
    if |nodes| < 2 then 0
    else if nodes[0].Cmd? then
      if i == 0 then (if nodes[1].Or? == (stop != 1) then 1 else 0) else Lead(nodes[2..], stop - 2, i - 1)
    else Lead(nodes[2..], stop - 2, i)
  }

  ghost predicate Leads(world: World, nodes: seq<Node>, stop: int, n: nat) {
    forall t: seq<Launch>, i: nat :: i >= n ==> world(t, i) == Lead(nodes, stop, i - n)
  }

  lemma GoodRest(nodes: seq<Node>)
    requires |nodes| > 1
    ensures GoodCds(nodes) ==> GoodCds(nodes[2..])
    ensures GoodCds(nodes[2..]) && !nodes[1].Chdir? && (nodes[0].Chdir? ==> nodes[0].dir.Some?) ==> GoodCds(nodes)
  {
    if GoodCds(nodes) {
      forall i | 0 <= i < |nodes[2..]| && nodes[2..][i].Chdir?
        ensures nodes[2..][i].dir.Some? && i + 1 < |nodes[2..]|
      {
        assert nodes[i + 2].Chdir?;
      }
    }
    if GoodCds(nodes[2..]) && !nodes[1].Chdir? && (nodes[0].Chdir? ==> nodes[0].dir.Some?) {
      forall i | 0 <= i < |nodes| && nodes[i].Chdir?
        ensures nodes[i].dir.Some? && i + 1 < |nodes|
      {
        if i >= 2 {
          assert nodes[2..][i - 2].Chdir?;
        }
      }
    }
  }

  lemma {:induction false} BadCdReached(nodes: seq<Node>, cwd: string, piped: seq<nat>, inPipe: bool,
                                        trace: seq<Launch>, world: World, stop: int)
    requires Alternates(nodes) && !GoodCds(nodes)
    requires stop <= 0 && Leads(world, nodes, stop, |trace|)
    ensures RunFrom(nodes, cwd, piped, inPipe, trace, world).end == Raised
    decreases |nodes|
  {
    if |nodes| > 1 {
      var rest := nodes[2..];
      GoodRest(nodes);
      match nodes[0]
      case Chdir(dir) =>
        if dir.Some? {
          BadCdReached(rest, JoinPath(cwd, dir.value), piped, inPipe, trace, world, stop - 2);
        }
      case Cmd(c) =>
        var trace1, piped1 := trace + [LaunchOf(c, cwd, InputOf(c, piped, inPipe))], piped + [|trace|];
        LastDecides(piped1, trace1, world);
        assert world(trace1, |trace|) == Lead(nodes, stop, 0);
        if nodes[1].Pipe? {
          BadCdReached(rest, cwd, piped1, true, trace1, world, stop - 2);
        } else {
          BadCdReached(rest, cwd, [], false, trace1, world, stop - 2);
        }
    }
  }

  lemma {:induction false} EvaluateExits(line: Line, cwd: string, prev: Option<nat>, trace: seq<Launch>, world: World)
    ensures Evaluate(line, cwd, prev, trace, world).end.Exit?
    decreases line
  {
    var (trace1, cwd1) := StartPipe(line.pipe, cwd, prev, trace);
    if !line.Last? {
      EvaluateExits(line.rest, cwd1, None, trace1, world);
    }
  }

  ghost predicate AlwaysExits(nodes: seq<Node>) {
    forall world: World :: RunFrom(nodes, ".", [], false, [], world).end.Exit?
  }

  /** A parsed line runs to an exit code whatever its commands return exactly if its changes of directory are good. */
  lemma ExitsIff(tokens: seq<string>)
    requires Parsed(tokens).Some?
    ensures AlwaysExits(Parsed(tokens).value) <==> GoodCds(Parsed(tokens).value)
  {
    var nodes := Parsed(tokens).value;
    ParsedAlternates(tokens);
    if GoodCds(nodes) {
      forall world: World
        ensures RunFrom(nodes, ".", [], false, [], world).end.Exit?
      {
        LoopEvaluates(nodes, ".", [], false, [], world, None);
        EvaluateExits(LineOf(nodes), ".", None, [], world);
      }
    } else {
      var world: World := (t: seq<Launch>, i: nat) => Lead(nodes, 0, i);
      BadCdReached(nodes, ".", [], false, [], world, 0);
      assert RunFrom(nodes, ".", [], false, [], world).end == Raised;
    }
  }

  // ---------------------------------------------------------------- what a shell does

  /** Where `cd` goes by itself. */
  const Home := "~"

  function GoTo(cwd: string, dir: Option<string>): string {
    JoinPath(cwd, dir.UnwrapOr(Home))
  }

  /** In the directory that the interpreter was started in. */
  predicate IsHere(cwd: string) {
    cwd == "." || cwd == "./"
  }

  /** A file named by a command in a directory, as it is named where the interpreter was started. */
  function Seen(cwd: string, name: string): string {
    if IsHere(cwd) then name else JoinPath(cwd, name)
  }

  /** The null device has its name everywhere. */
  function SeenOutput(cwd: string, o: Output): Output {
    if o.ToFile? && o.name != "NUL:" then ToFile(Seen(cwd, o.name)) else o
  }

  /** A redirection takes precedence over a pipe. */
  function ShellInput(c: Command, cwd: string, prev: Option<nat>): Input {
    if c.stdin.Some? then FromFile(Seen(cwd, c.stdin.value)) else if prev.Some? then FromProcess(prev.value) else Terminal
  }

  /** Files are opened in the directory of the command. */
  function ShellLaunch(c: Command, cwd: string, prev: Option<nat>): Launch {
    Launch(c.argv, c.env, cwd, ShellInput(c, cwd, prev), SeenOutput(cwd, c.stdout), SeenOutput(cwd, c.stderr))
  }

  /**
    A shell on the same commands and operators.  && and || have one precedence and associate to the left: a pipe is run
    or skipped by the status so far, and what is skipped does not end the line.  A change of directory is a command
    that succeeds; in a pipe it changes the directory of that process only.
  */
  function Shell(nodes: seq<Node>, status: int, running: bool, cwd: string, prev: Option<nat>, trace: seq<Launch>,
                 world: World): Run
    requires Alternates(nodes)
    decreases |nodes|
  {
    var n := nodes[0];
    var cwd1 := if running && n.Chdir? && prev.None? then GoTo(cwd, n.dir) else cwd;
    var trace1 := if running && n.Cmd? then trace + [ShellLaunch(n.c, cwd, prev)] else trace;
    var status1 := if !running then status else if n.Chdir? then 0 else world(trace1, |trace|);
    if |nodes| == 1 then Run(trace1, Exit(status1))
    else if nodes[1].Pipe? then Shell(nodes[2..], status1, running, cwd1, Some(|trace|), trace1, world)
    else Shell(nodes[2..], status1, (status1 == 0) == nodes[1].And?, cwd1, None, trace1, world)
  }

  ghost predicate LikeShell(nodes: seq<Node>)
    requires Alternates(nodes)
  {
    forall world: World :: RunFrom(nodes, ".", [], false, [], world) == Shell(nodes, 0, true, ".", None, [], world)
  }

  predicate ReadsPipe(n: Node) {
    n.Cmd? && n.c.stdin.None?
  }

  /** Behind a pipe there is a command that reads from it. */
  predicate PipesRead(nodes: seq<Node>) {
    forall i :: 0 <= i < |nodes| - 1 && nodes[i].Pipe? ==> ReadsPipe(nodes[i + 1])
  }

  predicate IsRelative(name: string) {
    name == "" || name[0] != '/'
  }

  predicate NamesRelative(o: Output) {
    o.ToFile? && o.name != "NUL:" && IsRelative(o.name)
  }

  /** A command with a redirection that depends on the directory. */
  predicate HasRelative(n: Node) {
    n.Cmd? && ((n.c.stdin.Some? && IsRelative(n.c.stdin.value)) || NamesRelative(n.c.stdout) || NamesRelative(n.c.stderr))
  }

  predicate Moves(n: Node) {
    n.Chdir? && n.dir != Some("")
  }

  /** Behind a change of directory no command has such a redirection. */
  predicate FilesStay(nodes: seq<Node>) {
    forall i, j :: 0 <= i < j < |nodes| && Moves(nodes[i]) ==> !HasRelative(nodes[j])
  }

  predicate NoneRelative(nodes: seq<Node>) {
    forall j :: 0 <= j < |nodes| ==> !HasRelative(nodes[j])
  }

  /** At one operator the interpreter stops, and at a later one a shell goes on. */
  predicate StopsShort(nodes: seq<Node>, i: nat, j: nat) {
    && 0 < i < j < |nodes|
    && ((nodes[i].Or? && nodes[j].And?) || (nodes[i].And? && nodes[i - 1].Cmd? && nodes[j].Or?))
  }

  /** No && after a ||, not even that after a `cd`; and no || after a && that has a command before it. */
  predicate Unmixed(nodes: seq<Node>) {
    forall i: nat, j: nat :: 0 < i < j < |nodes| ==> !StopsShort(nodes, i, j)
  }

  lemma {:induction false} RestReads(nodes: seq<Node>)
    requires Alternates(nodes) && |nodes| > 1
    ensures PipesRead(nodes) <==> PipesRead(nodes[2..]) && (nodes[1].Pipe? ==> ReadsPipe(nodes[2]))
  {
    var rest := nodes[2..];
    hide Alternates, ReadsPipe;
    if PipesRead(rest) && (nodes[1].Pipe? ==> ReadsPipe(nodes[2])) {
      forall i | 0 <= i < |nodes| - 1 && nodes[i].Pipe?
        ensures ReadsPipe(nodes[i + 1])
      {
        if i >= 2 {
          assert rest[i - 2].Pipe?;
        }
      }
    }
    if PipesRead(nodes) {
      forall i | 0 <= i < |rest| - 1 && rest[i].Pipe?
        ensures ReadsPipe(rest[i + 1])
      {
        assert nodes[i + 2].Pipe?;
      }
    }
  }

  lemma RestUnmixed(nodes: seq<Node>)
    requires |nodes| > 1 && Unmixed(nodes)
    ensures Unmixed(nodes[2..])
  {
    var rest := nodes[2..];
    forall i: nat, j: nat | 0 < i < j < |rest|
      ensures !StopsShort(rest, i, j)
    {
      assert !StopsShort(nodes, i + 2, j + 2);
    }
  }

  lemma RestStays(nodes: seq<Node>)
    requires |nodes| > 1
    ensures FilesStay(nodes) ==> FilesStay(nodes[2..]) && (Moves(nodes[0]) ==> NoneRelative(nodes[2..]))
    ensures NoneRelative(nodes) ==> NoneRelative(nodes[2..])
    ensures && FilesStay(nodes[2..]) && (Moves(nodes[0]) ==> NoneRelative(nodes[2..]))
            && !HasRelative(nodes[1]) && !Moves(nodes[1])
         ==> FilesStay(nodes)
    ensures NoneRelative(nodes[2..]) && !HasRelative(nodes[0]) && !HasRelative(nodes[1]) ==> NoneRelative(nodes)
  {
    var rest := nodes[2..];
    hide HasRelative, Moves;
    assert forall j :: 0 <= j < |rest| ==> rest[j] == nodes[j + 2];
    assert forall j :: 2 <= j < |nodes| ==> nodes[j] == rest[j - 2];
  }

  /** Where a directory is, once it has been left. */
  lemma JoinMoves(cwd: string, dir: string)
    requires cwd != ""
    ensures JoinPath(cwd, dir) != ""
    ensures IsHere(JoinPath(cwd, dir)) <==> IsHere(cwd) && dir == ""
  {
    var joined := JoinPath(cwd, dir);
    if dir != "" {
      assert joined[0] == '/' || |joined| > 2;
    } else if !IsHere(cwd) {
      assert joined != cwd ==> |cwd| == 1 ==> joined[0] == cwd[0];
    }
  }

  /** A command is started alike exactly if its files are where they were. */
  lemma LaunchesAgreeIff(c: Command, cwd: string, piped: seq<nat>, inPipe: bool, prev: Option<nat>)
    requires cwd != "" && (inPipe ==> c.stdin.None?)
    requires if inPipe then piped != [] && prev == Some(piped[|piped| - 1]) else piped == [] && prev == None
    ensures ShellLaunch(c, cwd, prev) == LaunchOf(c, cwd, InputOf(c, piped, inPipe))
       <==> IsHere(cwd) || !HasRelative(Cmd(c))
  {
    if !IsHere(cwd) {
      SeenElsewhere(cwd, c.stdin.UnwrapOr(""));
      SeenElsewhere(cwd, if c.stdout.ToFile? then c.stdout.name else "");
      SeenElsewhere(cwd, if c.stderr.ToFile? then c.stderr.name else "");
    }
  }

  lemma SeenElsewhere(cwd: string, name: string)
    requires cwd != "" && !IsHere(cwd)
    ensures Seen(cwd, name) == name <==> !IsRelative(name)
  {
    assert IsRelative(name) ==> |Seen(cwd, name)| > |name|;
  }

  /** The interpreter and a shell before the same nodes, having started the same processes. */
  ghost predicate InStep(nodes: seq<Node>, piped: seq<nat>, inPipe: bool, prev: Option<nat>, trace: seq<Launch>) {
    && Alternates(nodes) && GoodCds(nodes)
    && if inPipe then piped != [] && prev == Some(piped[|piped| - 1]) else piped == [] && prev == None
  }

  // ---------------------------------------------------------------- the interpreter is a shell

  lemma {:induction false} SkippedToEnd(nodes: seq<Node>, status: int, cwd: string, prev: Option<nat>,
                                        trace: seq<Launch>, world: World)
    requires Alternates(nodes)
    requires forall j :: 0 <= j < |nodes| ==> if status == 0 then !nodes[j].And? else !nodes[j].Or?
    ensures Shell(nodes, status, false, cwd, prev, trace, world) == Run(trace, Exit(status))
    decreases |nodes|
  {
    if |nodes| > 1 {
      SkippedToEnd(nodes[2..], status, cwd, if nodes[1].Pipe? then Some(|trace|) else None, trace, world);
    }
  }

  lemma NothingResumes(nodes: seq<Node>, status: int)
    requires |nodes| > 1 && Unmixed(nodes) && nodes[0].Cmd?
    requires if status == 0 then nodes[1].Or? else nodes[1].And?
    ensures forall j :: 0 <= j < |nodes[2..]| ==> if status == 0 then !nodes[2..][j].And? else !nodes[2..][j].Or?
  {
    forall j | 0 <= j < |nodes[2..]|
      ensures if status == 0 then !nodes[2..][j].And? else !nodes[2..][j].Or?
    {
      assert !StopsShort(nodes, 1, j + 2);
    }
  }

  lemma {:induction false} UnmixedAgree(nodes: seq<Node>, status: int, cwd: string, piped: seq<nat>, inPipe: bool,
                                        prev: Option<nat>, trace: seq<Launch>, world: World)
    requires InStep(nodes, piped, inPipe, prev, trace) && PipesRead(nodes) && Unmixed(nodes) && FilesStay(nodes)
    requires (inPipe ==> ReadsPipe(nodes[0])) && cwd != "" && (IsHere(cwd) || NoneRelative(nodes))
    ensures RunFrom(nodes, cwd, piped, inPipe, trace, world) == Shell(nodes, status, true, cwd, prev, trace, world)
    decreases |nodes|
  {
    if nodes[0].Cmd? {
      LaunchesAgreeIff(nodes[0].c, cwd, piped, inPipe, prev);
      LastDecides(piped + [|trace|], trace + [LaunchOf(nodes[0].c, cwd, InputOf(nodes[0].c, piped, inPipe))], world);
    }
    if |nodes| > 1 {
      var rest := nodes[2..];
      GoodRest(nodes);
      RestReads(nodes);
      RestUnmixed(nodes);
      RestStays(nodes);
      hide FilesStay, NoneRelative, Unmixed, PipesRead, HasRelative, StopsShort;
      match nodes[0]
      case Chdir(dir) =>
        JoinMoves(cwd, dir.value);
        UnmixedAgree(rest, 0, JoinPath(cwd, dir.value), piped, inPipe, prev, trace, world);
      case Cmd(c) =>
        var trace1, piped1 := trace + [LaunchOf(c, cwd, InputOf(c, piped, inPipe))], piped + [|trace|];
        var status1 := world(trace1, |trace|);
        if nodes[1].Pipe? {
          UnmixedAgree(rest, status1, cwd, piped1, true, Some(|trace|), trace1, world);
        } else if (status1 == 0) == nodes[1].And? {
          UnmixedAgree(rest, status1, cwd, [], false, None, trace1, world);
        } else {
          NothingResumes(nodes, status1);
          SkippedToEnd(rest, status1, cwd, None, trace1, world);
        }
    }
  }

  // ---------------------------------------------------------------- and only then

  lemma {:induction false} ShellKeeps(nodes: seq<Node>, status: int, running: bool, cwd: string, prev: Option<nat>,
                                      trace: seq<Launch>, world: World)
    requires Alternates(nodes)
    ensures trace <= Shell(nodes, status, running, cwd, prev, trace, world).trace
    ensures Shell(nodes, status, running, cwd, prev, trace, world).end.Exit?
    decreases |nodes|
  {
    var n := nodes[0];
    var cwd1 := if running && n.Chdir? && prev.None? then GoTo(cwd, n.dir) else cwd;
    var trace1 := if running && n.Cmd? then trace + [ShellLaunch(n.c, cwd, prev)] else trace;
    var status1 := if !running then status else if n.Chdir? then 0 else world(trace1, |trace|);
    if |nodes| > 1 {
      if nodes[1].Pipe? {
        ShellKeeps(nodes[2..], status1, running, cwd1, Some(|trace|), trace1, world);
      } else {
        ShellKeeps(nodes[2..], status1, (status1 == 0) == nodes[1].And?, cwd1, None, trace1, world);
      }
    }
  }

  lemma {:induction false} RunKeeps(nodes: seq<Node>, cwd: string, piped: seq<nat>, inPipe: bool, trace: seq<Launch>,
                                    world: World)
    requires Alternates(nodes)
    ensures trace <= RunFrom(nodes, cwd, piped, inPipe, trace, world).trace
    decreases |nodes|
  {
    if |nodes| > 1 {
      match nodes[0]
      case Chdir(dir) =>
        if dir.Some? {
          RunKeeps(nodes[2..], JoinPath(cwd, dir.value), piped, inPipe, trace, world);
        }
      case Cmd(c) =>
        var trace1, piped1 := trace + [LaunchOf(c, cwd, InputOf(c, piped, inPipe))], piped + [|trace|];
        if nodes[1].Pipe? {
          RunKeeps(nodes[2..], cwd, piped1, true, trace1, world);
        } else {
          RunKeeps(nodes[2..], cwd, [], false, trace1, world);
        }
    }
  }

  /** The next process that is started. */
  ghost predicate StartsNext(trace: seq<Launch>, run: Run, stdin: Input) {
    |run.trace| > |trace| && trace <= run.trace && run.trace[|trace|].stdin == stdin
  }

  /** In a pipe the interpreter's next command reads from the pipe, whatever changes of directory come before it. */
  lemma {:induction false} RunStartsNext(nodes: seq<Node>, cwd: string, piped: seq<nat>, trace: seq<Launch>,
                                         world: World)
    requires Alternates(nodes) && GoodCds(nodes) && piped != []
    ensures StartsNext(trace, RunFrom(nodes, cwd, piped, true, trace, world), FromProcess(piped[|piped| - 1]))
    decreases |nodes|
  {
    if nodes[0].Chdir? {
      GoodRest(nodes);
      RunStartsNext(nodes[2..], JoinPath(cwd, nodes[0].dir.value), piped, trace, world);
    } else if |nodes| > 1 {
      var c := nodes[0].c;
      var trace1, piped1 := trace + [LaunchOf(c, cwd, InputOf(c, piped, true))], piped + [|trace|];
      if nodes[1].Pipe? {
        RunKeeps(nodes[2..], cwd, piped1, true, trace1, world);
      } else {
        RunKeeps(nodes[2..], cwd, [], false, trace1, world);
      }
    }
  }

  /** A shell's next command reads what it says, or from the pipe it is in. */
  lemma {:induction false} ShellStartsNext(nodes: seq<Node>, status: int, cwd: string, prev: Option<nat>,
                                           trace: seq<Launch>, world: World) returns (stdin: Input)
    requires Alternates(nodes) && GoodCds(nodes)
    ensures StartsNext(trace, Shell(nodes, status, true, cwd, prev, trace, world), stdin)
    ensures stdin.FromProcess? ==> prev.Some? && ReadsPipe(nodes[0])
    decreases |nodes|
  {
    if nodes[0].Chdir? {
      GoodRest(nodes);
      stdin := ShellStartsNext(nodes[2..], 0, if prev.None? then GoTo(cwd, nodes[0].dir) else cwd, None, trace, world);
    } else {
      var c := nodes[0].c;
      stdin := ShellInput(c, cwd, prev);
      var trace1 := trace + [ShellLaunch(c, cwd, prev)];
      var status1 := world(trace1, |trace|);
      if |nodes| > 1 {
        if nodes[1].Pipe? {
          ShellKeeps(nodes[2..], status1, true, cwd, Some(|trace|), trace1, world);
        } else {
          ShellKeeps(nodes[2..], status1, (status1 == 0) == nodes[1].And?, cwd, None, trace1, world);
        }
      }
    }
  }

  lemma {:induction false} LaunchDiffers(nodes: seq<Node>, status: int, cwd: string, piped: seq<nat>, inPipe: bool,
                                         prev: Option<nat>,
                      trace: seq<Launch>, world: World)
    requires Alternates(nodes) && nodes[0].Cmd?
    requires ShellLaunch(nodes[0].c, cwd, prev) != LaunchOf(nodes[0].c, cwd, InputOf(nodes[0].c, piped, inPipe))
    ensures RunFrom(nodes, cwd, piped, inPipe, trace, world) != Shell(nodes, status, true, cwd, prev, trace, world)
  {
    var c := nodes[0].c;
    var trace1, piped1 := trace + [LaunchOf(c, cwd, InputOf(c, piped, inPipe))], piped + [|trace|];
    var trace2 := trace + [ShellLaunch(c, cwd, prev)];
    var status2 := world(trace2, |trace|);
    if |nodes| > 1 {
      RunKeeps(nodes[2..], cwd, if nodes[1].Pipe? then piped1 else [], nodes[1].Pipe?, trace1, world);
      if nodes[1].Pipe? {
        ShellKeeps(nodes[2..], status2, true, cwd, Some(|trace|), trace2, world);
      } else {
        ShellKeeps(nodes[2..], status2, (status2 == 0) == nodes[1].And?, cwd, None, trace2, world);
      }
    }
    assert trace1 <= RunFrom(nodes, cwd, piped, inPipe, trace, world).trace;
    assert trace2 <= Shell(nodes, status, true, cwd, prev, trace, world).trace;
    assert trace1[|trace|] != trace2[|trace|];
  }

  /** What is behind a pipe and does not read from it is reached, and there the interpreter reads from the pipe. */
  lemma {:induction false} PipeDiffers(nodes: seq<Node>, status: int, cwd: string, piped: seq<nat>, inPipe: bool,
                                       prev: Option<nat>, trace: seq<Launch>, world: World, stop: int)
    requires InStep(nodes, piped, inPipe, prev, trace) && stop <= 0 && Leads(world, nodes, stop, |trace|)
    requires !(PipesRead(nodes) && (inPipe ==> ReadsPipe(nodes[0])))
    ensures RunFrom(nodes, cwd, piped, inPipe, trace, world) != Shell(nodes, status, true, cwd, prev, trace, world)
    decreases |nodes|
  {
    if inPipe && !ReadsPipe(nodes[0]) {
      RunStartsNext(nodes, cwd, piped, trace, world);
      var stdin := ShellStartsNext(nodes, status, cwd, prev, trace, world);
    } else {
      var rest := nodes[2..];
      GoodRest(nodes);
      RestReads(nodes);
      match nodes[0]
      case Chdir(dir) => PipeDiffers(rest, 0, JoinPath(cwd, dir.value), piped, inPipe, prev, trace, world, stop - 2);
      case Cmd(c) =>
        var trace1, piped1 := trace + [LaunchOf(c, cwd, InputOf(c, piped, inPipe))], piped + [|trace|];
        LastDecides(piped1, trace1, world);
        assert world(trace1, |trace|) == Lead(nodes, stop, 0);
        if ShellLaunch(c, cwd, prev) != LaunchOf(c, cwd, InputOf(c, piped, inPipe)) {
          LaunchDiffers(nodes, status, cwd, piped, inPipe, prev, trace, world);
        } else if nodes[1].Pipe? {
          PipeDiffers(rest, world(trace1, |trace|), cwd, piped1, true, Some(|trace|), trace1, world, stop - 2);
        } else {
          PipeDiffers(rest, world(trace1, |trace|), cwd, [], false, None, trace1, world, stop - 2);
        }
    }
  }

  /** A shell that is skipping goes on at the first operator that lets it. */
  lemma {:induction false} ShellResumes(nodes: seq<Node>, status: int, cwd: string, prev: Option<nat>,
                                        trace: seq<Launch>,
                                        world: World, j: nat)
    requires Alternates(nodes) && GoodCds(nodes)
    requires j < |nodes| && if status == 0 then nodes[j].And? else nodes[j].Or?
    ensures |Shell(nodes, status, false, cwd, prev, trace, world).trace| > |trace|
    decreases |nodes|
  {
    var rest := nodes[2..];
    GoodRest(nodes);
    if nodes[1].Pipe? {
      ShellResumes(rest, status, cwd, Some(|trace|), trace, world, j - 2);
    } else if (status == 0) == nodes[1].And? {
      var stdin := ShellStartsNext(rest, status, cwd, None, trace, world);
    } else {
      ShellResumes(rest, status, cwd, None, trace, world, j - 2);
    }
  }

  lemma {:induction false} StopDiffers(nodes: seq<Node>, status: int, cwd: string, piped: seq<nat>, inPipe: bool,
                                       prev: Option<nat>, trace: seq<Launch>, world: World, i: nat, j: nat)
    requires InStep(nodes, piped, inPipe, prev, trace) && PipesRead(nodes) && (inPipe ==> ReadsPipe(nodes[0]))
    requires StopsShort(nodes, i, j) && Leads(world, nodes, i, |trace|)
    ensures RunFrom(nodes, cwd, piped, inPipe, trace, world) != Shell(nodes, status, true, cwd, prev, trace, world)
    decreases |nodes|
  {
    var rest := nodes[2..];
    GoodRest(nodes);
    RestReads(nodes);
    assert i != 2 && i != 1 ==> StopsShort(rest, i - 2, j - 2);
    match nodes[0]
    case Chdir(dir) => StopDiffers(rest, 0, JoinPath(cwd, dir.value), piped, inPipe, prev, trace, world, i - 2, j - 2);
    case Cmd(c) =>
      var trace1, piped1 := trace + [LaunchOf(c, cwd, InputOf(c, piped, inPipe))], piped + [|trace|];
      LastDecides(piped1, trace1, world);
      var status1 := world(trace1, |trace|);
      assert status1 == Lead(nodes, i, 0);
      if ShellLaunch(c, cwd, prev) != LaunchOf(c, cwd, InputOf(c, piped, inPipe)) {
        LaunchDiffers(nodes, status, cwd, piped, inPipe, prev, trace, world);
      } else if i == 1 {
        ShellResumes(rest, status1, cwd, None, trace1, world, j - 2);
      } else if nodes[1].Pipe? {
        StopDiffers(rest, status1, cwd, piped1, true, Some(|trace|), trace1, world, i - 2, j - 2);
      } else {
        StopDiffers(rest, status1, cwd, [], false, None, trace1, world, i - 2, j - 2);
      }
  }

  /** A file named behind a change of directory is another file in a shell. */
  lemma {:induction false} FilesDiffer(nodes: seq<Node>, status: int, cwd: string, piped: seq<nat>, inPipe: bool,
                                       prev: Option<nat>, trace: seq<Launch>, world: World, stop: int)
    requires InStep(nodes, piped, inPipe, prev, trace) && PipesRead(nodes) && (inPipe ==> ReadsPipe(nodes[0]))
    requires !(FilesStay(nodes) && (IsHere(cwd) || NoneRelative(nodes))) && cwd != ""
    requires stop <= 0 && Leads(world, nodes, stop, |trace|)
    ensures RunFrom(nodes, cwd, piped, inPipe, trace, world) != Shell(nodes, status, true, cwd, prev, trace, world)
    decreases |nodes|
  {
    if nodes[0].Cmd? {
      LaunchesAgreeIff(nodes[0].c, cwd, piped, inPipe, prev);
    }
    if nodes[0].Cmd? && !IsHere(cwd) && HasRelative(nodes[0]) {
      LaunchDiffers(nodes, status, cwd, piped, inPipe, prev, trace, world);
    } else {
      var rest := nodes[2..];
      GoodRest(nodes);
      RestReads(nodes);
      RestStays(nodes);
      hide FilesStay, NoneRelative, PipesRead;
      match nodes[0]
      case Chdir(dir) =>
        JoinMoves(cwd, dir.value);
        FilesDiffer(rest, 0, JoinPath(cwd, dir.value), piped, inPipe, prev, trace, world, stop - 2);
      case Cmd(c) =>
        var trace1, piped1 := trace + [LaunchOf(c, cwd, InputOf(c, piped, inPipe))], piped + [|trace|];
        LastDecides(piped1, trace1, world);
        assert world(trace1, |trace|) == Lead(nodes, stop, 0);
        if nodes[1].Pipe? {
          FilesDiffer(rest, world(trace1, |trace|), cwd, piped1, true, Some(|trace|), trace1, world, stop - 2);
        } else {
          FilesDiffer(rest, world(trace1, |trace|), cwd, [], false, None, trace1, world, stop - 2);
        }
    }
  }

  /** What a line must be like to run as in a shell. */
  predicate ShellLine(nodes: seq<Node>) {
    GoodCds(nodes) && PipesRead(nodes) && FilesStay(nodes) && Unmixed(nodes)
  }

  /**
    An accepted line runs as in a shell, whatever its commands return, exactly if every `cd` has a directory and a
    command after it, what is behind a pipe is a command that reads from it, redirections behind a `cd` have absolute
    names, and && and || are not mixed.
  */
  lemma LikeShellIff(tokens: seq<string>)
    requires Parsed(tokens).Some?
    ensures Alternates(Parsed(tokens).value)
    ensures LikeShell(Parsed(tokens).value) <==> ShellLine(Parsed(tokens).value)
  {
    var nodes := Parsed(tokens).value;
    ParsedAlternates(tokens);
    if ShellLine(nodes) {
      forall world: World
        ensures RunFrom(nodes, ".", [], false, [], world) == Shell(nodes, 0, true, ".", None, [], world)
      {
        UnmixedAgree(nodes, 0, ".", [], false, None, [], world);
      }
    } else {
      var world := NotLikeShell(nodes);
      assert RunFrom(nodes, ".", [], false, [], world) != Shell(nodes, 0, true, ".", None, [], world);
    }
  }

  lemma NotLikeShell(nodes: seq<Node>) returns (world: World)
    requires Alternates(nodes) && !ShellLine(nodes)
    ensures RunFrom(nodes, ".", [], false, [], world) != Shell(nodes, 0, true, ".", None, [], world)
  {
    if GoodCds(nodes) && PipesRead(nodes) && FilesStay(nodes) {
      var i: nat, j: nat :| 0 < i < j < |nodes| && StopsShort(nodes, i, j);
      world := (t: seq<Launch>, k: nat) => Lead(nodes, i, k);
      StopDiffers(nodes, 0, ".", [], false, None, [], world, i, j);
    } else {
      world := (t: seq<Launch>, k: nat) => Lead(nodes, 0, k);
      if !GoodCds(nodes) {
        ShellKeeps(nodes, 0, true, ".", None, [], world);
        BadCdReached(nodes, ".", [], false, [], world, 0);
      } else if !PipesRead(nodes) {
        PipeDiffers(nodes, 0, ".", [], false, None, [], world, 0);
      } else {
        FilesDiffer(nodes, 0, ".", [], false, None, [], world, 0);
      }
    }
  }

  function Simple(name: string): Node {
    Cmd(NewCommand(name, []))
  }

  /** `a || cd d && b`: when a succeeds a shell starts b, and the interpreter does not. */
  lemma OrThenCd(world: World)
    requires forall t: seq<Launch>, i: nat :: world(t, i) == 0
    ensures var nodes := [Simple("a"), Or, Chdir(Some("d")), And, Simple("b")];
            && Alternates(nodes)
            && |RunFrom(nodes, ".", [], false, [], world).trace| == 1
            && |Shell(nodes, 0, true, ".", None, [], world).trace| == 2
  {
    var nodes := [Simple("a"), Or, Chdir(Some("d")), And, Simple("b")];
    var rest := [Chdir(Some("d")), And, Simple("b")];
    assert nodes[2..] == rest && rest[2..] == [Simple("b")];
    var trace := [LaunchOf(Simple("a").c, ".", Terminal)];
    assert [] + trace == trace;
    assert Shell(nodes, 0, true, ".", None, [], world) == Shell(rest, 0, false, ".", None, trace, world);
    assert Shell(rest, 0, false, ".", None, trace, world) == Shell([Simple("b")], 0, true, ".", None, trace, world);
    LastDecides([0], trace, world);
  }

  /** `cd d && a > f`: in a shell f is in d. */
  lemma FileBehindCd(world: World)
    ensures var a := Simple("a").c.(stdout := ToFile("f"));
            var nodes := [Chdir(Some("d")), And, Cmd(a)];
            && Alternates(nodes)
            && RunFrom(nodes, ".", [], false, [], world).trace == [LaunchOf(a, "./d", Terminal)]
            && Shell(nodes, 0, true, ".", None, [], world).trace
               == [LaunchOf(a.(stdout := ToFile("./d/f")), "./d", Terminal)]
  {
    var a := Simple("a").c.(stdout := ToFile("f"));
    var nodes, rest := [Chdir(Some("d")), And, Cmd(a)], [Cmd(a)];
    assert nodes[2..] == rest;
    assert JoinPath(".", "d") == "./d" && JoinPath("./d", "f") == "./d/f";
    assert RunFrom(nodes, ".", [], false, [], world) == RunFrom(rest, "./d", [], false, [], world);
    assert Shell(nodes, 0, true, ".", None, [], world) == Shell(rest, 0, true, "./d", None, [], world);
  }

  /** `a | cd d && b`: in a shell b does not read from a, and stays where it is. */
  lemma CdBehindPipe(world: World)
    requires forall t: seq<Launch>, i: nat :: world(t, i) == 0
    ensures var a, b := Simple("a").c.(stdout := ToPipe), Simple("b").c;
            var nodes := [Cmd(a), Pipe, Chdir(Some("d")), And, Cmd(b)];
            && Alternates(nodes)
            && RunFrom(nodes, ".", [], false, [], world).trace
               == [LaunchOf(a, ".", Terminal), LaunchOf(b, "./d", FromProcess(0))]
            && Shell(nodes, 0, true, ".", None, [], world).trace
               == [LaunchOf(a, ".", Terminal), LaunchOf(b, ".", Terminal)]
  {
    var a, b := Simple("a").c.(stdout := ToPipe), Simple("b").c;
    var nodes, rest := [Cmd(a), Pipe, Chdir(Some("d")), And, Cmd(b)], [Chdir(Some("d")), And, Cmd(b)];
    assert nodes[2..] == rest && rest[2..] == [Cmd(b)];
    var trace := [LaunchOf(a, ".", Terminal)];
    var none: seq<nat> := [];
    assert [] + trace == trace && none + [0] == [0];
    assert Shell(nodes, 0, true, ".", None, [], world) == Shell(rest, 0, true, ".", Some(0), trace, world);
    assert Shell(rest, 0, true, ".", Some(0), trace, world) == Shell([Cmd(b)], 0, true, ".", None, trace, world);
    assert RunFrom(nodes, ".", [], false, [], world) == RunFrom(rest, ".", [0], true, trace, world);
    assert JoinPath(".", "d") == "./d";
    assert RunFrom(rest, ".", [0], true, trace, world) == RunFrom([Cmd(b)], "./d", [0], true, trace, world);
  }
}
