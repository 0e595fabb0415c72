/**
  Shell command lines (ns-3.15/waf-tools/shellcmd.py): the parser of tokens, and the interpreter loop against a recursive
  evaluator.
*/
module ShellPipeline {
  import opened Wrappers

  datatype Output = Inherit | ToFile(name: string) | ToPipe | ToStdout

  /** A command with its environment assignments in the order written. */
  datatype Command = Command(argv: seq<string>, env: seq<(string, string)>, stdin: Option<string>, stdout: Output,
                             stderr: Output)

  datatype Node = Cmd(c: Command) | Chdir(dir: Option<string>) | Pipe | And | Or

  predicate IsOp(n: Node) {
    n.Pipe? || n.And? || n.Or?
  }

  // ---------------------------------------------------------------- tokens

  predicate IsWordChar(c: char) {
    'a' <= c <= 'z' || 'A' <= c <= 'Z' || '0' <= c <= '9' || c == '_'
  }

  predicate IsSpace(c: char) {
    c == ' ' || 9 as char <= c <= 13 as char
  }

  predicate All(s: string, p: char -> bool) {
    forall i :: 0 <= i < |s| ==> p(s[i])
  }

  function IndexOf(s: string, c: char): (i: nat)
    ensures i <= |s| && (i < |s| ==> s[i] == c) && forall j :: 0 <= j < i ==> s[j] != c
  {
    if s == "" || s[0] == c then 0 else 1 + IndexOf(s[1..], c)
  }

  /** An assignment: a word, '=' and something without spaces, save for one newline at the end. */
  function EnvVar(token: string): Option<(string, string)> {
    var i := IndexOf(token, '=');
    if i == |token| then None else
    var name, rest := token[..i], token[i + 1..];
    var val := if rest != "" && rest[|rest| - 1] == '\n' then rest[..|rest| - 1] else rest;
    if name != "" && All(name, IsWordChar) && val != "" && All(val, c => !IsSpace(c)) then Some((name, val)) else None
  }

  /** A name of letters, digits and underscores. */
  ghost predicate IsName(name: string) {
    && name != ""
    && forall c :: c in name ==> 'a' <= c <= 'z' || 'A' <= c <= 'Z' || '0' <= c <= '9' || c == '_'
  }

  /** Something without blanks, tabs, line ends and the like: the codes 32 and 9 to 13. */
  ghost predicate IsValue(val: string) {
    val != "" && forall c :: c in val ==> c as int != 32 && !(9 <= c as int <= 13)
  }

  lemma {:induction false} FirstEquals(name: string, rest: string)
    requires IsName(name)
    ensures IndexOf(name + "=" + rest, '=') == |name|
  {
    var token := name + "=" + rest;
    assert token[|name|] == '=';
    forall j | 0 <= j < |name|
      ensures token[j] != '='
    {
      assert token[j] in name;
    }
  }

  lemma Characters(s: string)
    ensures s != "" && All(s, IsWordChar) <==> IsName(s)
    ensures s != "" && All(s, c => !IsSpace(c)) <==> IsValue(s)
  {
    forall c | c in s
      ensures exists i :: 0 <= i < |s| && s[i] == c
    {
    }
    assert forall i :: 0 <= i < |s| ==> s[i] in s;
  }

  lemma AssignmentTaken(name: string, val: string, rest: string)
    requires IsName(name) && IsValue(val) && (rest == val || rest == val + "\n")
    ensures EnvVar(name + "=" + rest) == Some((name, val))
  {
    FirstEquals(name, rest);
    Characters(name);
    Characters(val);
    assert val[|val| - 1] in val;
    assert val[|val| - 1] != '\n';
    ValueOf(val, rest);
    SplitAt(name, rest);
    hide IsName, IsValue, All, IndexOf;
  }

  lemma ValueOf(val: string, rest: string)
    requires val != "" && val[|val| - 1] != '\n' && (rest == val || rest == val + "\n")
    ensures rest != "" && val == if rest[|rest| - 1] == '\n' then rest[..|rest| - 1] else rest
  {
  }

  lemma SplitAt(name: string, rest: string)
    ensures var token := name + "=" + rest; token[..|name|] == name && token[|name| + 1..] == rest
  {
  }

  lemma AssignmentShape(token: string)
    requires EnvVar(token).Some?
    ensures var (name, val) := EnvVar(token).value;
            && IsName(name) && IsValue(val)
            && (token == name + "=" + val || token == name + "=" + (val + "\n"))
  {
    var (name, val) := EnvVar(token).value;
    Characters(name);
    Characters(val);
    hide IsName, IsValue, All, IndexOf;
    var i := IndexOf(token, '=');
    var rest := token[i + 1..];
    assert token == token[..i] + "=" + rest;
    assert rest != val ==> rest == val + "\n";
  }

  /** Which tokens are assignments, and of what to what; a newline at the end is dropped. */
  lemma EnvVarIff(token: string, name: string, val: string)
    ensures EnvVar(token) == Some((name, val))
       <==> && IsName(name) && IsValue(val)
            && (token == name + "=" + val || token == name + "=" + (val + "\n"))
  {
    hide EnvVar, IsName, IsValue;
    if IsName(name) && IsValue(val) {
      AssignmentTaken(name, val, val);
      AssignmentTaken(name, val, val + "\n");
    }
    if EnvVar(token) == Some((name, val)) {
      AssignmentShape(token);
    }
  }

  // ---------------------------------------------------------------- the parser

  datatype Mode = Begin | InCommand | InChdir | AtStdout | AtStderr | AtStdin

  datatype Parser = Parser(mode: Mode, env: seq<(string, string)>, current: Option<Node>, done: seq<Node>)

  function NewCommand(token: string, env: seq<(string, string)>): Command {
    Command([token], env, None, Inherit, Inherit)
  }

  function Commit(p: Parser, n: Node, op: Node): Parser {
    Parser(Begin, p.env, None, p.done + [n, op])
  }

  function Redirected(p: Parser, c: Command): Parser {
    p.(current := Some(Cmd(c)), mode := InCommand)
  }

  /** One token; nothing when an assertion of the parser fails. */
  function Step(p: Parser, token: string): Option<Parser> {
    if p.mode.Begin? then BeginStep(p, token)
    else if p.current.None? then None
    else if p.current.value.Chdir? then if p.mode.InChdir? then ChdirStep(p, p.current.value.dir, token) else None
    else if p.current.value.Cmd? && !p.mode.InChdir? then CommandStep(p, p.current.value.c, token)
    else None
  }

  function BeginStep(p: Parser, token: string): Option<Parser> {
    if EnvVar(token).Some? then Some(p.(env := p.env + [EnvVar(token).value]))
    else if p.current.Some? then None
    else if token == "cd" then
      if p.env != [] then None else Some(p.(current := Some(Chdir(None)), mode := InChdir))
    else Some(p.(current := Some(Cmd(NewCommand(token, p.env))), env := [], mode := InCommand))
  }

  function ChdirStep(p: Parser, dir: Option<string>, token: string): Option<Parser> {
    if token == "&&" then Some(Commit(p, Chdir(dir), And))
    else if dir.Some? then None
    else Some(p.(current := Some(Chdir(Some(token)))))
  }

  function CommandStep(p: Parser, c: Command, token: string): Option<Parser> {
    if p.mode.AtStdout? then if c.stdout != Inherit then None else Some(Redirected(p, c.(stdout := ToFile(token))))
    else if p.mode.AtStderr? then if c.stderr != Inherit then None else Some(Redirected(p, c.(stderr := ToFile(token))))
    else if p.mode.AtStdin? then if c.stdin.Some? then None else Some(Redirected(p, c.(stdin := Some(token))))
    else if token == ">" then Some(p.(mode := AtStdout))
    else if token == "2>" then Some(p.(mode := AtStderr))
    else if token == "2>&1" then if c.stderr != Inherit then None else Some(Redirected(p, c.(stderr := ToStdout)))
    else if token == "<" then Some(p.(mode := AtStdin))
    else if token == "|" then if c.stdout != Inherit then None else Some(Commit(p, Cmd(c.(stdout := ToPipe)), Pipe))
    else if token == "&&" then Some(Commit(p, Cmd(c), And))
    else if token == "||" then Some(Commit(p, Cmd(c), Or))
    else Some(Redirected(p, c.(argv := c.argv + [token])))
  }

  function ParseFrom(p: Parser, tokens: seq<string>): Option<seq<Node>>
    decreases tokens
  {
    if tokens == [] then
      if p.current.None? then None else Some(p.done + [p.current.value])
    else
      match Step(p, tokens[0])
      case None => None
      case Some(q) => ParseFrom(q, tokens[1..])
  }

  const Start := Parser(Begin, [], None, [])

  function Parsed(tokens: seq<string>): Option<seq<Node>> {
    ParseFrom(Start, tokens)
  }

  // ---------------------------------------------------------------- what the parser accepts

  /** A command or a change of directory, and the operator after it. */
  predicate IsUnit(n: Node, op: Node) {
    && IsOp(op)
    && (n.Chdir? || (n.Cmd? && n.c.argv != []))
    && (n.Chdir? ==> op == And)
    && (n.Cmd? ==> (op == Pipe <==> n.c.stdout == ToPipe))
  }

  predicate IsLast(n: Node) {
    n.Chdir? || (n.Cmd? && n.c.argv != [] && n.c.stdout != ToPipe)
  }

  /** Commands and operators in turn, ending in a command. */
  predicate Alternates(nodes: seq<Node>) {
    if |nodes| == 1 then IsLast(nodes[0]) else |nodes| > 2 && IsUnit(nodes[0], nodes[1]) && Alternates(nodes[2..])
  }

  predicate Units(nodes: seq<Node>) {
    nodes == [] || (|nodes| >= 2 && IsUnit(nodes[0], nodes[1]) && Units(nodes[2..]))
  }

  lemma {:induction false} UnitsThen(a: seq<Node>, b: seq<Node>)
    requires Units(a)
    ensures Units(b) ==> Units(a + b)
    ensures Alternates(b) ==> Alternates(a + b)
  {
    if a == [] {
      assert a + b == b;
    } else {
      UnitsThen(a[2..], b);
      assert (a + b)[2..] == a[2..] + b;
    }
  }

  ghost predicate ParserValid(p: Parser) {
    && Units(p.done)
    && (p.mode.Begin? <==> p.current.None?)
    && (p.current.Some? ==> IsLast(p.current.value) && (p.mode.InChdir? <==> p.current.value.Chdir?))
  }

  lemma StepValid(p: Parser, token: string)
    requires ParserValid(p) && Step(p, token).Some?
    ensures ParserValid(Step(p, token).value)
  {
    var q := Step(p, token).value;
    if q.done != p.done {
      var last := q.done[|p.done|..];
      assert q.done == p.done + last && |last| == 2 && IsUnit(last[0], last[1]);
      assert last[2..] == [] && Units(last[2..]);
      assert Units(last);
      UnitsThen(p.done, last);
    }
  }

  lemma {:induction false} ParseFromAlternates(p: Parser, tokens: seq<string>)
    requires ParserValid(p) && ParseFrom(p, tokens).Some?
    ensures Alternates(ParseFrom(p, tokens).value)
    decreases tokens
  {
    if tokens == [] {
      UnitsThen(p.done, [p.current.value]);
    } else {
      StepValid(p, tokens[0]);
      ParseFromAlternates(Step(p, tokens[0]).value, tokens[1..]);
    }
  }

  /** Every accepted token list parses to alternating commands and operators; a piped command is one before a pipe. */
  lemma ParsedAlternates(tokens: seq<string>)
    requires Parsed(tokens).Some?
    ensures Alternates(Parsed(tokens).value)
  {
    ParseFromAlternates(Start, tokens);
  }

  // ---------------------------------------------------------------- the parser of tokens, as it runs

  class Pipeline {
    var currentCommand: Option<Node>
    var pipeline: seq<Node>

    constructor ()
      ensures currentCommand == None && pipeline == []
    {
      currentCommand, pipeline := None, [];
    }

    /** False when an assertion fails. */
    method Parse(tokens: seq<string>) returns (ok: bool)
      modifies this
      ensures ok == Parsed(tokens).Some?
      ensures ok ==> pipeline == Parsed(tokens).value && Alternates(pipeline)
    {
      currentCommand, pipeline := None, [];
      var state, envVars, rest := Begin, [], tokens;
      while rest != []
        invariant Parsed(tokens) == ParseFrom(Parser(state, envVars, currentCommand, pipeline), rest)
        decreases rest
      {
        var next := Step(Parser(state, envVars, currentCommand, pipeline), rest[0]);
        if next.None? {
          return false;
        }
        state, envVars, currentCommand, pipeline := next.value.mode, next.value.env, next.value.current, next.value.done;
        rest := rest[1..];
      }
      if currentCommand.None? {
        return false;
      }
      pipeline, currentCommand := pipeline + [currentCommand.value], None;
      ParsedAlternates(tokens);
      ok := true;
    }
  }

  // ---------------------------------------------------------------- printing tokens

  function EnvToken(assignment: (string, string)): string {
    assignment.0 + "=" + assignment.1
  }

  ghost predicate IsAssignment(assignment: (string, string)) {
    IsName(assignment.0) && IsValue(assignment.1)
  }

  function EnvTokens(env: seq<(string, string)>): seq<string> {
    seq(|env|, i requires 0 <= i < |env| => EnvToken(env[i]))
  }

  function OutputTokens(o: Output, file: string, same: string): seq<string> {
    match o
    case ToFile(name) => [file, name]
    case ToStdout => [same]
    case _ => []
  }

  function CommandTokens(c: Command): seq<string> {
    EnvTokens(c.env) + c.argv + (if c.stdin.Some? then ["<", c.stdin.value] else [])
    + OutputTokens(c.stdout, ">", "") + OutputTokens(c.stderr, "2>", "2>&1")
  }

  function NodeTokens(n: Node): seq<string> {
    match n
    case Cmd(c) => CommandTokens(c)
    case Chdir(None) => ["cd"]
    case Chdir(Some(dir)) => ["cd", dir]
    case Pipe => ["|"]
    case And => ["&&"]
    case Or => ["||"]
  }

  function Tokens(nodes: seq<Node>): seq<string> {
    if nodes == [] then [] else NodeTokens(nodes[0]) + Tokens(nodes[1..])
  }

  predicate IsSpecial(token: string) {
    token in {">", "2>", "2>&1", "<", "|", "&&", "||"}
  }

  /** A command whose tokens are read as what they are. */
  ghost predicate Readable(c: Command) {
    && (forall i :: 0 <= i < |c.env| ==> IsAssignment(c.env[i]))
    && c.argv != [] && EnvVar(c.argv[0]).None? && c.argv[0] != "cd"
    && (forall i :: 1 <= i < |c.argv| ==> !IsSpecial(c.argv[i]))
    && c.stdout != ToStdout && c.stderr != ToPipe
  }

  ghost predicate ReadableNode(n: Node) {
    (n.Cmd? ==> Readable(n.c)) && (n.Chdir? ==> n.dir != Some("&&"))
  }

  ghost predicate ReadableNodes(nodes: seq<Node>) {
    forall i :: 0 <= i < |nodes| ==> ReadableNode(nodes[i])
  }

  lemma {:induction false} EnvRead(p: Parser, env: seq<(string, string)>, rest: seq<string>)
    requires p.mode.Begin? && forall i :: 0 <= i < |env| ==> IsAssignment(env[i])
    ensures ParseFrom(p, EnvTokens(env) + rest) == ParseFrom(p.(env := p.env + env), rest)
    decreases env
  {
    hide EnvVar, ParseFrom, EnvToken, IsAssignment;
    if env == [] {
      assert EnvTokens(env) + rest == rest && p.env + env == p.env && p.(env := p.env) == p;
    } else {
      var token, more := EnvToken(env[0]), EnvTokens(env[1..]) + rest;
      AssignmentRead(env[0]);
      assert EnvTokens(env) + rest == [token] + more;
      OneToken(p, token, more);
      EnvRead(p.(env := p.env + [env[0]]), env[1..], rest);
      assert p.env + [env[0]] + env[1..] == p.env + env;
    }
  }

  lemma AssignmentRead(assignment: (string, string))
    requires IsAssignment(assignment)
    ensures EnvVar(EnvToken(assignment)) == Some(assignment)
  {
    EnvVarIff(EnvToken(assignment), assignment.0, assignment.1);
  }

  lemma {:induction false} ArgsRead(p: Parser, c: Command, args: seq<string>, rest: seq<string>)
    requires p.mode.InCommand? && p.current == Some(Cmd(c)) && forall i :: 0 <= i < |args| ==> !IsSpecial(args[i])
    ensures ParseFrom(p, args + rest) == ParseFrom(p.(current := Some(Cmd(c.(argv := c.argv + args)))), rest)
    decreases args
  {
    if args == [] {
      assert args + rest == rest && c.argv + args == c.argv;
    } else {
      assert (args + rest)[1..] == args[1..] + rest;
      var c1 := c.(argv := c.argv + [args[0]]);
      ArgsRead(p.(current := Some(Cmd(c1))), c1, args[1..], rest);
      assert c.argv + [args[0]] + args[1..] == c.argv + args;
    }
  }

  lemma {:induction false} TwoTokens(p: Parser, a: string, b: string, rest: seq<string>)
    requires Step(p, a).Some?
    ensures ParseFrom(p, [a, b] + rest)
         == match Step(Step(p, a).value, b)
            case None => None
            case Some(q) => ParseFrom(q, rest)
  {
    assert ([a, b] + rest)[1..] == [b] + rest;
    assert ([b] + rest)[1..] == rest;
  }

  lemma {:induction false} OneToken(p: Parser, a: string, rest: seq<string>)
    ensures ParseFrom(p, [a] + rest)
         == match Step(p, a)
            case None => None
            case Some(q) => ParseFrom(q, rest)
  {
    assert ([a] + rest)[1..] == rest;
  }

  function Awaiting(done: seq<Node>): Parser {
    Parser(Begin, [], None, done)
  }

  function Reading(n: Node, done: seq<Node>): Parser {
    Parser(if n.Chdir? then InChdir else InCommand, [], Some(n), done)
  }

  lemma {:induction false} RedirectionsRead(c: Command, c0: Command, done: seq<Node>, rest: seq<string>)
    requires c0 == Command(c.argv, c.env, None, Inherit, Inherit) && c.stdout != ToStdout && c.stderr != ToPipe
    ensures ParseFrom(Reading(Cmd(c0), done),
                      (if c.stdin.Some? then ["<", c.stdin.value] else [])
                      + (OutputTokens(c.stdout, ">", "") + (OutputTokens(c.stderr, "2>", "2>&1") + rest)))
         == ParseFrom(Reading(Cmd(if c.stdout.ToPipe? then c.(stdout := Inherit) else c), done), rest)
  {
    hide ParseFrom, EnvVar;
    var c1 := c0.(stdin := c.stdin);
    var c2 := c1.(stdout := if c.stdout.ToPipe? then Inherit else c.stdout);
    var rest2 := OutputTokens(c.stderr, "2>", "2>&1") + rest;
    var rest1 := OutputTokens(c.stdout, ">", "") + rest2;
    if c.stdin.Some? {
      TwoTokens(Reading(Cmd(c0), done), "<", c.stdin.value, rest1);
    } else {
      assert [] + rest1 == rest1;
    }
    if c.stdout.ToFile? {
      TwoTokens(Reading(Cmd(c1), done), ">", c.stdout.name, rest2);
    } else {
      assert [] + rest2 == rest2;
    }
    if c.stderr.ToFile? {
      TwoTokens(Reading(Cmd(c2), done), "2>", c.stderr.name, rest);
    } else if c.stderr.ToStdout? {
      OneToken(Reading(Cmd(c2), done), "2>&1", rest);
    } else {
      assert [] + rest == rest;
    }
  }

  lemma {:induction false} CommandRead(c: Command, done: seq<Node>, rest: seq<string>)
    requires Readable(c)
    ensures ParseFrom(Awaiting(done), CommandTokens(c) + rest)
         == ParseFrom(Reading(Cmd(if c.stdout.ToPipe? then c.(stdout := Inherit) else c), done), rest)
  {
    hide ParseFrom, EnvVar;
    var redirections := (if c.stdin.Some? then ["<", c.stdin.value] else [])
                        + (OutputTokens(c.stdout, ">", "") + (OutputTokens(c.stderr, "2>", "2>&1") + rest));
    var name, args := c.argv[0], c.argv[1..];
    assert CommandTokens(c) + rest == EnvTokens(c.env) + ([name] + (args + redirections));
    EnvRead(Awaiting(done), c.env, [name] + (args + redirections));
    assert [] + c.env == c.env;
    OneToken(Awaiting(done).(env := c.env), name, args + redirections);
    var c0 := NewCommand(name, c.env);
    ArgsRead(Reading(Cmd(c0), done), c0, args, redirections);
    assert [name] + args == c.argv;
    RedirectionsRead(c, Command(c.argv, c.env, None, Inherit, Inherit), done, rest);
  }

  lemma CdIsNoAssignment()
    ensures EnvVar("cd").None?
  {
    assert IndexOf("cd", '=') == 2;
  }

  lemma {:induction false} ChdirRead(dir: Option<string>, done: seq<Node>, rest: seq<string>)
    requires dir != Some("&&")
    ensures ParseFrom(Awaiting(done), (if dir.Some? then ["cd", dir.value] else ["cd"]) + rest)
         == ParseFrom(Reading(Chdir(dir), done), rest)
  {
    CdIsNoAssignment();
    hide ParseFrom, EnvVar;
    if dir.Some? {
      TwoTokens(Awaiting(done), "cd", dir.value, rest);
    } else {
      OneToken(Awaiting(done), "cd", rest);
    }
  }

  /** What is left on the right of a node's own tokens. */
  lemma {:induction false} NodeRead(n: Node, done: seq<Node>, rest: seq<string>)
    requires (n.Cmd? && Readable(n.c)) || (n.Chdir? && n.dir != Some("&&"))
    ensures ParseFrom(Awaiting(done), NodeTokens(n) + rest)
         == ParseFrom(Reading(if n.Cmd? && n.c.stdout.ToPipe? then Cmd(n.c.(stdout := Inherit)) else n, done), rest)
  {
    hide ParseFrom, EnvVar, Readable, CommandTokens;
    if n.Cmd? {
      CommandRead(n.c, done, rest);
      assert NodeTokens(n) == CommandTokens(n.c);
    } else {
      ChdirRead(n.dir, done, rest);
      assert NodeTokens(n) == if n.dir.Some? then ["cd", n.dir.value] else ["cd"];
    }
  }

  lemma {:induction false} OpRead(n: Node, op: Node, done: seq<Node>, rest: seq<string>)
    requires IsUnit(n, op)
    ensures ParseFrom(Reading(if n.Cmd? && n.c.stdout.ToPipe? then Cmd(n.c.(stdout := Inherit)) else n, done),
                      NodeTokens(op) + rest)
         == ParseFrom(Awaiting(done + [n, op]), rest)
  {
    hide ParseFrom, EnvVar;
    var token := if op.Pipe? then "|" else if op.And? then "&&" else "||";
    assert NodeTokens(op) == [token];
    OneToken(Reading(if n.Cmd? && n.c.stdout.ToPipe? then Cmd(n.c.(stdout := Inherit)) else n, done), token, rest);
  }

  lemma EndRead(n: Node, done: seq<Node>)
    ensures ParseFrom(Reading(n, done), []) == Some(done + [n])
  {
  }

  lemma {:induction false} NodesRead(nodes: seq<Node>, done: seq<Node>)
    requires Alternates(nodes) && ReadableNodes(nodes)
    ensures ParseFrom(Awaiting(done), Tokens(nodes)) == Some(done + nodes)
  {
    hide ParseFrom, EnvVar, Readable, NodeTokens;
    var n := nodes[0];
    if |nodes| == 1 {
      NodeRead(n, done, []);
      assert nodes == [n] && Tokens(nodes[1..]) == [];
      EndRead(n, done);
    } else {
      var op, rest := nodes[1], nodes[2..];
      assert nodes[1..][0] == op && nodes[1..][1..] == rest;
      assert Tokens(nodes) == NodeTokens(n) + (NodeTokens(op) + Tokens(rest));
      assert forall i :: 0 <= i < |rest| ==> rest[i] == nodes[i + 2];
      NodeRead(n, done, NodeTokens(op) + Tokens(rest));
      OpRead(n, op, done, Tokens(rest));
      NodesRead(rest, done + [n, op]);
      assert done + [n, op] + rest == done + nodes;
    }
  }

  /** Every pipeline of readable commands is parsed back from its tokens. */
  lemma {:induction false} TokensParse(nodes: seq<Node>)
    requires Alternates(nodes) && ReadableNodes(nodes)
    ensures Parsed(Tokens(nodes)) == Some(nodes)
  {
    NodesRead(nodes, []);
    assert [] + nodes == nodes;
  }

  ghost predicate ReadsBack(p: Parser) {
    && ReadableNodes(p.done)
    && (forall i :: 0 <= i < |p.env| ==> IsAssignment(p.env[i]))
    && (p.current.Some? ==> ReadableNode(p.current.value))
  }

  lemma BeginReadsBack(p: Parser, token: string)
    requires ReadsBack(p) && BeginStep(p, token).Some?
    ensures ReadsBack(BeginStep(p, token).value)
  {
    if EnvVar(token).Some? {
      AssignmentShape(token);
    }
    hide EnvVar, IsName, IsValue, ReadableNodes;
  }

  lemma ArgumentsReadBack(c: Command, token: string)
    requires Readable(c) && !IsSpecial(token)
    ensures Readable(c.(argv := c.argv + [token]))
  {
    hide EnvVar, IsAssignment;
  }

  lemma CommitReadsBack(p: Parser, n: Node, op: Node)
    requires ReadsBack(p) && ReadableNode(n) && IsOp(op)
    ensures ReadsBack(Commit(p, n, op))
  {
    hide Readable, IsAssignment;
  }

  lemma CommandReadsBack(p: Parser, c: Command, token: string)
    requires ReadsBack(p) && p.current == Some(Cmd(c)) && CommandStep(p, c, token).Some?
    ensures ReadsBack(CommandStep(p, c, token).value)
  {
    assert Readable(c.(stdout := ToPipe)) && Readable(c.(stdout := ToFile(token)));
    assert Readable(c.(stderr := ToStdout)) && Readable(c.(stderr := ToFile(token)));
    assert Readable(c.(stdin := Some(token)));
    CommitReadsBack(p, Cmd(c.(stdout := ToPipe)), Pipe);
    CommitReadsBack(p, Cmd(c), And);
    CommitReadsBack(p, Cmd(c), Or);
    if !IsSpecial(token) {
      ArgumentsReadBack(c, token);
    }
    hide Readable, IsAssignment, ReadableNodes, Commit;
  }

  lemma StepReadsBack(p: Parser, token: string)
    requires ReadsBack(p) && Step(p, token).Some?
    ensures ReadsBack(Step(p, token).value)
  {
    if p.mode.Begin? {
      BeginReadsBack(p, token);
    } else if p.current.value.Cmd? {
      CommandReadsBack(p, p.current.value.c, token);
    } else {
      CommitReadsBack(p, p.current.value, And);
    }
    hide Readable, IsAssignment, ReadableNodes, Commit, BeginStep, CommandStep;
  }

  lemma {:induction false} ParseFromReadsBack(p: Parser, tokens: seq<string>)
    requires ReadsBack(p) && ParseFrom(p, tokens).Some?
    ensures ReadableNodes(ParseFrom(p, tokens).value)
    decreases tokens
  {
    hide Readable;
    if tokens != [] {
      StepReadsBack(p, tokens[0]);
      ParseFromReadsBack(Step(p, tokens[0]).value, tokens[1..]);
    }
  }

  /** Whatever is accepted is readable: its own tokens, in the order in which they are printed, say the same. */
  lemma AcceptedReadsBack(tokens: seq<string>)
    requires Parsed(tokens).Some?
    ensures ReadableNodes(Parsed(tokens).value)
    ensures Parsed(Tokens(Parsed(tokens).value)) == Parsed(tokens)
  {
    ParseFromReadsBack(Start, tokens);
    ParsedAlternates(tokens);
    TokensParse(Parsed(tokens).value);
  }

  /** What the assertions of the parser refuse: to redirect twice, to pipe what is redirected, two directories. */
  lemma {:induction false} RedirectedOnce(c: Command, done: seq<Node>, file: string, rest: seq<string>)
    ensures c.stdout != Inherit ==>
              && ParseFrom(Reading(Cmd(c), done), [">", file] + rest) == None
              && ParseFrom(Reading(Cmd(c), done), ["|"] + rest) == None
    ensures c.stderr != Inherit ==>
              && ParseFrom(Reading(Cmd(c), done), ["2>", file] + rest) == None
              && ParseFrom(Reading(Cmd(c), done), ["2>&1"] + rest) == None
    ensures c.stdin.Some? ==> ParseFrom(Reading(Cmd(c), done), ["<", file] + rest) == None
  {
    var p := Reading(Cmd(c), done);
    TwoTokens(p, ">", file, rest);
    TwoTokens(p, "2>", file, rest);
    TwoTokens(p, "<", file, rest);
    OneToken(p, "|", rest);
    OneToken(p, "2>&1", rest);
    hide ParseFrom;
  }

  /** A second directory, an assignment before `cd`, and no command after an operator are refused too. */
  lemma {:induction false} MalformedRefused(dir: string, more: string, done: seq<Node>, env: seq<(string, string)>,
                                            rest: seq<string>)
    ensures more != "&&" ==> ParseFrom(Reading(Chdir(Some(dir)), done), [more] + rest) == None
    ensures env != [] ==> ParseFrom(Awaiting(done).(env := env), ["cd"] + rest) == None
    ensures ParseFrom(Awaiting(done).(env := env), []) == None
  {
    CdIsNoAssignment();
    OneToken(Reading(Chdir(Some(dir)), done), more, rest);
    OneToken(Awaiting(done).(env := env), "cd", rest);
    assert ParseFrom(Awaiting(done).(env := env), []) == None;
    hide ParseFrom, EnvVar;
  }
}
