/**
  The rewritten program, run by stack k, does what the source program does, on slot k of every object; it leaves the
  other slots alone.
*/
module Preservation {
  import opened Wrappers
  import opened CLang
  import opened Globaliser
  import opened Lexical

  /** Which objects stay single, which have instances, and which object each pointer array is for. */
  datatype Placement = Placement(shared: set<ObjectId>, expanded: set<ObjectId>, owner: map<nat, ObjectId>)

  // ---------------------------------------------------------------- memories

  /** Where stack k keeps a location of the source program. */
  function MapLoc(l: Loc, k: nat, pl: Placement): Loc {
    match l
    case Auto(_) => l
    case Object(id) => if id in pl.shared then l else if id in pl.expanded then InstanceOf(l, k) else SlotOf(l, k)
    case _ => SlotOf(l, k)
  }

  function MapVal(v: Val, k: nat, pl: Placement): Val {
    match v
    case Int(_) => v
    case Ptr(l) => Ptr(MapLoc(l, k, pl))
  }

  function MapSome(l: Option<Loc>, k: nat, pl: Placement): Option<Loc> {
    match l
    case None => None
    case Some(a) => Some(MapLoc(a, k, pl))
  }

  function MapValue(v: Option<Val>, k: nat, pl: Placement): Option<Val> {
    match v
    case None => None
    case Some(a) => Some(MapVal(a, k, pl))
  }

  function MapVals(vs: seq<Val>, k: nat, pl: Placement): (r: seq<Val>)
    ensures |r| == |vs| && forall i :: 0 <= i < |vs| ==> r[i] == MapVal(vs[i], k, pl)
  {
    seq(|vs|, i requires 0 <= i < |vs| => MapVal(vs[i], k, pl))
  }

  ghost predicate MirrorsAt(m: Memory, m': Memory, k: nat, pl: Placement, l: Loc) {
    && (l in m <==> MapLoc(l, k, pl) in m')
    && (l in m ==> m'[MapLoc(l, k, pl)] == MapVal(m[l], k, pl))
  }

  /** Slot k of the memory m' holds the memory m. */
  ghost predicate Mirrors(m: Memory, m': Memory, k: nat, pl: Placement) {
    forall l: Loc :: MirrorsAt(m, m', k, pl, l)
  }

  /** The pointer arrays hold the addresses of the instances. */
  ghost predicate CellsHold(m: Memory, pl: Placement) {
    forall n, j: nat :: n in pl.owner && j < NUM_STACKS ==>
      PtrCell(n, j) in m && m[PtrCell(n, j)] == Ptr(InstanceOf(Object(pl.owner[n]), j))
  }

  /** What a run of stack k may write to. */
  predicate Touched(l: Loc, k: nat, pl: Placement) {
    l.Auto? || (l.Object? && l.id in pl.shared) || (l.SlotOf? && l.j == k) || (l.InstanceOf? && l.j == k)
  }

  ghost predicate Kept(m: Memory, m1: Memory, k: nat, pl: Placement) {
    forall l: Loc :: !Touched(l, k, pl) ==> (l in m <==> l in m1) && (l in m ==> m1[l] == m[l])
  }

  lemma MapLocInjective(a: Loc, b: Loc, k: nat, pl: Placement)
    requires MapLoc(a, k, pl) == MapLoc(b, k, pl)
    ensures a == b
  {
  }

  lemma StoreMirrors(m: Memory, m': Memory, l: Loc, v: Val, k: nat, pl: Placement)
    requires Mirrors(m, m', k, pl)
    ensures Mirrors(m[l := v], m'[MapLoc(l, k, pl) := MapVal(v, k, pl)], k, pl)
  {
    var m1, m1' := m[l := v], m'[MapLoc(l, k, pl) := MapVal(v, k, pl)];
    forall a: Loc
      ensures MirrorsAt(m1, m1', k, pl, a)
    {
      assert MirrorsAt(m, m', k, pl, a);
      if MapLoc(a, k, pl) == MapLoc(l, k, pl) {
        MapLocInjective(a, l, k, pl);
      }
    }
  }

  lemma RemoveMirrors(m: Memory, m': Memory, n: nat, k: nat, pl: Placement)
    requires Mirrors(m, m', k, pl)
    ensures Mirrors(m - {Auto(n)}, m' - {Auto(n)}, k, pl)
  {
    forall a: Loc
      ensures MirrorsAt(m - {Auto(n)}, m' - {Auto(n)}, k, pl, a)
    {
      assert MirrorsAt(m, m', k, pl, a);
    }
  }

  // ---------------------------------------------------------------- names

  ghost predicate NameMirrors(x: string, scope: Scope, env: Env, env': Env, pl: Placement, live: bool) {
    if x !in scope then Src(x) !in env && Src(x) !in env' else
    match scope[x]
    case Local =>
      if live then Src(x) in env && env[Src(x)].Variable? && env[Src(x)].l.Auto? && Src(x) in env' && env'[Src(x)] == env[Src(x)]
      else Src(x) !in env && Src(x) !in env'
    case FunctionName => Src(x) !in env && Src(x) !in env'
    case Shared(id) =>
      && Src(x) in env && env[Src(x)] == Variable(Object(id)) && id in pl.shared
      && Src(x) in env' && env'[Src(x)] == Variable(Object(id))
    case Bound(id, form) =>
      && Src(x) in env && env[Src(x)] == Variable(Object(id)) && id !in pl.shared
      && match form
         case Old => OldArray(x) in env' && env'[OldArray(x)] == SlotArray(Object(id)) && id !in pl.expanded
         case New(n) =>
           && PtrArray(x, n) in env' && env'[PtrArray(x, n)] == PointerArray(n)
           && Family(x) in env' && env'[Family(x)] == Instances(Object(id))
           && id in pl.expanded && n in pl.owner && pl.owner[n] == id
  }

  /** The same objects are in scope, each in its form. */
  ghost predicate EnvMirrors(scope: Scope, env: Env, env': Env, pl: Placement, live: bool) {
    forall x: string :: NameMirrors(x, scope, env, env', pl, live)
  }

  /** A reference in either form reaches slot k. */
  lemma RefMirrors(x: string, scope: Scope, env: Env, env': Env, m: Memory, m': Memory, k: nat, pl: Placement)
    requires NameMirrors(x, scope, env, env', pl, true) && CellsHold(m', pl) && k < NUM_STACKS
    ensures LocateRef(RefOf(scope, x), env', m', k) == MapSome(LocateRef(Plain(Src(x)), env, m, k), k, pl)
  {
  }

  lemma {:induction false} EvalMirrors(e: Expr, scope: Scope, env: Env, env': Env, m: Memory, m': Memory, k: nat,
                                       pl: Placement)
    requires Uses(e, scope.Keys) && EnvMirrors(scope, env, env', pl, true)
    requires Mirrors(m, m', k, pl) && CellsHold(m', pl) && k < NUM_STACKS
    ensures Locate(ResolveExpr(e, scope), env', m', k) == MapSome(Locate(e, env, m, k), k, pl)
    ensures Eval(ResolveExpr(e, scope), env', m', k) == MapValue(Eval(e, env, m, k), k, pl)
  {
    match e
    case Num(_) =>
    case Id(r) =>
      RefMirrors(r.name.x, scope, env, env', m, m', k, pl);
      ReadMirrors(Locate(e, env, m, k), m, m', k, pl);
    case Deref(a) =>
      EvalMirrors(a, scope, env, env', m, m', k, pl);
      ReadMirrors(Locate(e, env, m, k), m, m', k, pl);
    case Addr(a) => EvalMirrors(a, scope, env, env', m, m', k, pl);
    case Binary(op, a, b) =>
      EvalMirrors(a, scope, env, env', m, m', k, pl);
      EvalMirrors(b, scope, env, env', m, m', k, pl);
      var v, w := Eval(a, env, m, k), Eval(b, env, m, k);
      if v.Some? && w.Some? {
        ApplyMirrors(op, v.value, w.value, k, pl);
      }
  }

  lemma ReadMirrors(l: Option<Loc>, m: Memory, m': Memory, k: nat, pl: Placement)
    requires Mirrors(m, m', k, pl)
    ensures l.Some? ==> Read(m', MapLoc(l.value, k, pl)) == MapValue(Read(m, l.value), k, pl)
  {
    if l.Some? {
      assert MirrorsAt(m, m', k, pl, l.value);
    }
  }

  /** Pointers are equal exactly when those they are mapped to are. */
  lemma ApplyMirrors(op: Op, v: Val, w: Val, k: nat, pl: Placement)
    ensures Apply(op, MapVal(v, k, pl), MapVal(w, k, pl)) == MapValue(Apply(op, v, w), k, pl)
  {
    if v.Ptr? && w.Ptr? && MapLoc(v.l, k, pl) == MapLoc(w.l, k, pl) {
      MapLocInjective(v.l, w.l, k, pl);
    }
  }

  lemma {:induction false} EvalAllMirror(es: seq<Expr>, scope: Scope, env: Env, env': Env, m: Memory, m': Memory,
                                         k: nat,
                                         pl: Placement)
    requires UsesAll(es, scope.Keys) && EnvMirrors(scope, env, env', pl, true)
    requires Mirrors(m, m', k, pl) && CellsHold(m', pl) && k < NUM_STACKS
    ensures var vs, vs' := EvalAll(es, env, m, k), EvalAll(ResolveExprs(es, scope), env', m', k);
            vs'.Some? == vs.Some? && (vs.Some? ==> vs'.value == MapVals(vs.value, k, pl))
    decreases es
  {
    if es != [] {
      var es' := ResolveExprs(es, scope);
      assert es'[0] == ResolveExpr(es[0], scope) && es'[1..] == ResolveExprs(es[1..], scope);
      EvalMirrors(es[0], scope, env, env', m, m', k, pl);
      EvalAllMirror(es[1..], scope, env, env', m, m', k, pl);
    }
  }

  // ---------------------------------------------------------------- declarations

  /** One source run and one run by stack k, both begun when the shared memory was m. */
  ghost predicate StatesMirror(st: State, st': State, m: Memory, k: nat, pl: Placement) {
    Mirrors(st.mem, st'.mem, k, pl) && CellsHold(st'.mem, pl) && Kept(m, st'.mem, k, pl) && st'.next == st.next
  }

  lemma AutoMirrors(x: string, scope: Scope, env: Env, env': Env, st: State, st': State, m: Memory, k: nat,
                    pl: Placement)
    requires EnvMirrors(scope, env, env', pl, true) && StatesMirror(st, st', m, k, pl)
    ensures var (env1, st1) := NewAuto(x, env, st);
            var (env1', st1') := NewAuto(x, env', st');
            EnvMirrors(scope[x := Local], env1, env1', pl, true) && StatesMirror(st1, st1', m, k, pl)
  {
    var (env1, st1) := NewAuto(x, env, st);
    var (env1', st1') := NewAuto(x, env', st');
    RemoveMirrors(st.mem, st'.mem, st.next, k, pl);
    var scope1 := scope[x := Local];
    forall y: string
      ensures NameMirrors(y, scope1, env1, env1', pl, true)
    {
      assert NameMirrors(y, scope, env, env', pl, true);
    }
  }

  /** A value goes to a location and its image to the location's image. */
  lemma PutMirrors(l: Loc, v: Val, st: State, st': State, m: Memory, k: nat, pl: Placement)
    requires StatesMirror(st, st', m, k, pl)
    ensures StatesMirror(st.(mem := st.mem[l := v]), st'.(mem := st'.mem[MapLoc(l, k, pl) := MapVal(v, k, pl)]), m, k, pl)
  {
    StoreMirrors(st.mem, st'.mem, l, v, k, pl);
  }

  ghost predicate DeclaredMirror(r: Option<(Env, State)>, r': Option<(Env, State)>, scope: Scope, m: Memory, k: nat,
                                 pl: Placement) {
    && r'.Some? == r.Some?
    && (r.Some? ==> EnvMirrors(scope, r.value.0, r'.value.0, pl, true) && StatesMirror(r.value.1, r'.value.1, m, k, pl))
  }

  lemma {:induction false} DeclareMirrors(defs: seq<AutoVar>, scope: Scope, env: Env, env': Env, st: State, st': State,
                                          m: Memory, k: nat, pl: Placement)
    requires SupportedAutos(defs, scope.Keys) && k < NUM_STACKS
    requires EnvMirrors(scope, env, env', pl, true) && StatesMirror(st, st', m, k, pl)
    ensures DeclaredMirror(DeclareAutos(defs, env, st, k), DeclareAutos(ResolveAutos(defs, scope).0, env', st', k),
                           ResolveAutos(defs, scope).1, m, k, pl)
    decreases defs
  {
    if defs != [] {
      var x, scope1 := defs[0].x, scope[defs[0].x := Local];
      var (env1, st1) := NewAuto(x, env, st);
      var (env1', st1') := NewAuto(x, env', st');
      AutoMirrors(x, scope, env, env', st, st', m, k, pl);
      assert scope1.Keys == scope.Keys + {x};
      var defs' := ResolveAutos(defs, scope).0;
      assert defs'[1..] == ResolveAutos(defs[1..], scope1).0;
      match defs[0].init
      case None => DeclareMirrors(defs[1..], scope1, env1, env1', st1, st1', m, k, pl);
      case Some(e) =>
        EvalMirrors(e, scope1, env1, env1', st1.mem, st1'.mem, k, pl);
        match Eval(e, env1, st1.mem, k)
        case None =>
        case Some(v) =>
          PutMirrors(Auto(st.next), v, st1, st1', m, k, pl);
          DeclareMirrors(defs[1..], scope1, env1, env1', st1.(mem := st1.mem[Auto(st.next) := v]),
                         st1'.(mem := st1'.mem[Auto(st.next) := MapVal(v, k, pl)]), m, k, pl);
    }
  }

  lemma {:induction false} ParamsMirror(params: seq<string>, args: seq<Val>, scope: Scope, env: Env, env': Env,
                                        st: State,
                                        st': State, m: Memory, k: nat, pl: Placement)
    requires |params| == |args|
    requires EnvMirrors(scope, env, env', pl, true) && StatesMirror(st, st', m, k, pl)
    ensures DeclaredMirror(Some(BindParams(params, args, env, st)),
                           Some(BindParams(params, MapVals(args, k, pl), env', st')), Locals(scope, params), m, k, pl)
    decreases params
  {
    if params != [] {
      var (env1, st1) := NewAuto(params[0], env, st);
      var (env1', st1') := NewAuto(params[0], env', st');
      AutoMirrors(params[0], scope, env, env', st, st', m, k, pl);
      PutMirrors(Auto(st.next), args[0], st1, st1', m, k, pl);
      assert MapVals(args, k, pl)[1..] == MapVals(args[1..], k, pl);
      ParamsMirror(params[1..], args[1..], scope[params[0] := Local], env1, env1',
                   st1.(mem := st1.mem[Auto(st.next) := args[0]]),
                   st1'.(mem := st1'.mem[Auto(st.next) := MapVal(args[0], k, pl)]), m, k, pl);
    }
  }

  /** A rewritten declaration of the object id has the form that the placement gives the object. */
  predicate PlacedDef(id: ObjectId, d: VarDef, pl: Placement) {
    match d.shape
    case Single(_) => id in pl.shared
    case Slots(_) => id !in pl.shared && id !in pl.expanded
    case Expanded(_, n) => id !in pl.shared && id in pl.expanded && n in pl.owner && pl.owner[n] == id
  }

  lemma BindMirrors(d: VarDef, id: ObjectId, form: Form, scope: Scope, env: Env, env': Env, pl: Placement, live: bool)
    requires d.shape.Single? && EnvMirrors(scope, env, env', pl, live)
    requires var scope1 := scope[d.x := Bound(id, form)]; PlacedDef(id, ResolveDef(d, form, scope1), pl)
    ensures var scope1 := scope[d.x := Bound(id, form)];
            EnvMirrors(scope1, Bind(env, id, d), Bind(env', id, ResolveDef(d, form, scope1)), pl, live)
  {
    var scope1 := scope[d.x := Bound(id, form)];
    forall y: string
      ensures NameMirrors(y, scope1, Bind(env, id, d), Bind(env', id, ResolveDef(d, form, scope1)), pl, live)
    {
      assert NameMirrors(y, scope, env, env', pl, live);
    }
  }

  // ---------------------------------------------------------------- running

  predicate PlacedStmts(b: Stmts, pl: Placement)
    decreases b, 0
  {
    b.Then? ==> PlacedStmt(b.first, pl) && PlacedStmts(b.rest, pl)
  }

  predicate PlacedStmt(s: Stmt, pl: Placement)
    decreases s, 1
  {
    match s
    case If(_, yes, no) => PlacedStmts(yes, pl) && PlacedStmts(no, pl)
    case While(_, body) => PlacedStmts(body, pl)
    case Block(body) => PlacedStmts(body, pl)
    case Static(site, d) => PlacedDef(StaticObject(site), d, pl)
    case _ => true
  }

  /** The two programs' functions, the scope and layout each was resolved with, and the stack that runs. */
  datatype Context = Context(cmds: Commands, names: set<string>, pl: Placement, k: nat, source: Functions,
                             target: Functions, scopes: map<string, (Scope, Layout)>)

  ghost predicate ClosureMirrors(f: string, c: Context)
    requires f in c.source && f in c.target && f in c.scopes
  {
    var (scope, lay) := c.scopes[f];
    var body := c.source[f].body;
    var inner := Locals(scope, c.source[f].params);
    && c.target[f].params == c.source[f].params
    && c.target[f].body == ResolveStmts(body, inner, lay, c.cmds).0
    && SupportedStmts(body, inner, lay, c.cmds, c.names, false) && PlacedStmts(c.target[f].body, c.pl)
    && EnvMirrors(scope, c.source[f].env, c.target[f].env, c.pl, true)
  }

  ghost predicate FunctionsMirror(c: Context) {
    && c.source.Keys == c.target.Keys == c.scopes.Keys
    && forall f :: f in c.source ==> ClosureMirrors(f, c)
  }

  ghost predicate OutcomesMirror(o: Outcome, o': Outcome, m: Memory, c: Context) {
    match (o, o')
    case (OutOfFuel, OutOfFuel) => true
    case (Stuck, Stuck) => true
    case (Normal(st), Normal(st')) => StatesMirror(st, st', m, c.k, c.pl)
    case (Returned(v, st), Returned(v', st')) => v' == MapVal(v, c.k, c.pl) && StatesMirror(st, st', m, c.k, c.pl)
    case _ => false
  }

  lemma {:induction false} AssignMirrors(lhs: Expr, v: Val, scope: Scope, env: Env, env': Env, st: State, st': State,
                                         m: Memory, c: Context)
    requires Uses(lhs, scope.Keys) && EnvMirrors(scope, env, env', c.pl, true) && c.k < NUM_STACKS
    requires StatesMirror(st, st', m, c.k, c.pl)
    ensures OutcomesMirror(Store(lhs, v, env, st, c.k),
                           Store(ResolveExpr(lhs, scope), MapVal(v, c.k, c.pl), env', st', c.k), m, c)
  {
    EvalMirrors(lhs, scope, env, env', st.mem, st'.mem, c.k, c.pl);
    match Locate(lhs, env, st.mem, c.k)
    case None =>
    case Some(l) => PutMirrors(l, v, st, st', m, c.k, c.pl);
  }

  /** A call by stack k mirrors the source's call. */
  lemma {:induction false} InvokeMirrors(f: string, args: seq<Val>, st: State, st': State, m: Memory, c: Context,
                                         fuel: nat)
    requires c.k < NUM_STACKS && FunctionsMirror(c) && StatesMirror(st, st', m, c.k, c.pl)
    ensures OutcomesMirror(Invoke(f, args, st, c.source, c.k, fuel),
                           Invoke(f, MapVals(args, c.k, c.pl), st', c.target, c.k, fuel), m, c)
    decreases fuel, Done, 0
  {
    if fuel > 0 && f in c.source && |args| == |c.source[f].params| {
      assert ClosureMirrors(f, c);
      var (scope, lay) := c.scopes[f];
      var cl, cl' := c.source[f], c.target[f];
      var (env, st1) := BindParams(cl.params, args, cl.env, st);
      var (env', st1') := BindParams(cl.params, MapVals(args, c.k, c.pl), cl'.env, st');
      ParamsMirror(cl.params, args, scope, cl.env, cl'.env, st, st', m, c.k, c.pl);
      StmtsMirror(cl.body, Locals(scope, cl.params), lay, false, env, env', st1, st1', m, c, fuel - 1, cl'.body);
    }
  }

  lemma {:induction false} StmtsMirror(b: Stmts, scope: Scope, lay: Layout, full: bool, env: Env, env': Env, st: State,
                                       st': State, m: Memory, c: Context, fuel: nat, b': Stmts)
    requires c.k < NUM_STACKS && FunctionsMirror(c) && StatesMirror(st, st', m, c.k, c.pl) && EnvMirrors(scope, env, env', c.pl, true)
    requires SupportedStmts(b, scope, lay, c.cmds, c.names, full)
    requires b' == ResolveStmts(b, scope, lay, c.cmds).0 && PlacedStmts(b', c.pl)
    ensures OutcomesMirror(ExecStmts(b, env, st, c.source, c.k, fuel), ExecStmts(b', env', st', c.target, c.k, fuel), m, c)
    decreases fuel, b, 1
  {
    match b
    case Done =>
    case Then(s, rest) =>
      hide FunctionsMirror, StatesMirror, EnvMirrors;
      StepMirrors(s, scope, lay, full, env, env', st, st', m, c, fuel, b'.first);
      var (_, scope1, lay1) := ResolveStep(s, scope, lay, c.cmds);
      var (o, env1) := ExecStep(s, env, st, c.source, c.k, fuel);
      var (o', env1') := ExecStep(b'.first, env', st', c.target, c.k, fuel);
      if o.Normal? {
        StmtsMirror(rest, scope1, lay1, full || s.Static?, env1, env1', o.st, o'.st, m, c, fuel, b'.rest);
      }
  }

  lemma {:induction false} StepMirrors(s: Stmt, scope: Scope, lay: Layout, full: bool, env: Env, env': Env, st: State,
                                       st': State, m: Memory, c: Context, fuel: nat, s': Stmt)
    requires c.k < NUM_STACKS && FunctionsMirror(c) && StatesMirror(st, st', m, c.k, c.pl) && EnvMirrors(scope, env, env', c.pl, true)
    requires SupportedStep(s, scope, lay, c.cmds, c.names, full)
    requires s' == ResolveStep(s, scope, lay, c.cmds).0 && PlacedStmt(s', c.pl)
    ensures var (o, env1) := ExecStep(s, env, st, c.source, c.k, fuel);
            var (o', env1') := ExecStep(s', env', st', c.target, c.k, fuel);
            OutcomesMirror(o, o', m, c)
            && (o.Normal? ==> EnvMirrors(ResolveStep(s, scope, lay, c.cmds).1, env1, env1', c.pl, true))
    decreases fuel, s, 2
  {
    hide FunctionsMirror, StatesMirror, EnvMirrors;
    match s
    case Autos(defs) =>
      DeclareMirrors(defs, scope, env, env', st, st', m, c.k, c.pl);
    case Static(site, d) =>
      BindMirrors(d, StaticObject(site), Declare(lay, c.cmds, d).1, scope, env, env', c.pl, true);
    case _ => StmtMirrors(s, scope, lay, env, env', st, st', m, c, fuel, s');
  }

  lemma {:induction false} StmtMirrors(s: Stmt, scope: Scope, lay: Layout, env: Env, env': Env, st: State, st': State,
                                       m: Memory, c: Context, fuel: nat, s': Stmt)
    requires c.k < NUM_STACKS && FunctionsMirror(c) && StatesMirror(st, st', m, c.k, c.pl) && EnvMirrors(scope, env, env', c.pl, true)
    requires Supported(s, scope, lay, c.cmds, c.names)
    requires s' == Resolve(s, scope, lay, c.cmds).0 && PlacedStmt(s', c.pl)
    ensures OutcomesMirror(Exec(s, env, st, c.source, c.k, fuel), Exec(s', env', st', c.target, c.k, fuel), m, c)
    decreases fuel, s, 1
  {
    match s
    case Assign(lhs, rhs) =>
      EvalMirrors(rhs, scope, env, env', st.mem, st'.mem, c.k, c.pl);
      var v := Eval(rhs, env, st.mem, c.k);
      if v.Some? {
        AssignMirrors(lhs, v.value, scope, env, env', st, st', m, c);
      }
    case Call(lhs, f, args) => CallMirrors(s, scope, lay, env, env', st, st', m, c, fuel, s');
    case If(cond, yes, no) =>
      EvalMirrors(cond, scope, env, env', st.mem, st'.mem, c.k, c.pl);
      StmtsMirror(yes, scope, lay, false, env, env', st, st', m, c, fuel, s'.yes);
      StmtsMirror(no, scope, ResolveStmts(yes, scope, lay, c.cmds).1, false, env, env', st, st', m, c, fuel, s'.no);
    case While(cond, body) => WhileMirrors(s, scope, lay, env, env', st, st', m, c, fuel, s');
    case Block(body) => StmtsMirror(body, scope, lay, false, env, env', st, st', m, c, fuel, s'.body);
    case Return(e) => EvalMirrors(e, scope, env, env', st.mem, st'.mem, c.k, c.pl);
    case _ =>
  }

  lemma {:induction false} CallMirrors(s: Stmt, scope: Scope, lay: Layout, env: Env, env': Env, st: State, st': State,
                                       m: Memory, c: Context, fuel: nat, s': Stmt)
    requires s.Call?
    requires c.k < NUM_STACKS && FunctionsMirror(c) && StatesMirror(st, st', m, c.k, c.pl) && EnvMirrors(scope, env, env', c.pl, true)
    requires Supported(s, scope, lay, c.cmds, c.names)
    requires s' == Resolve(s, scope, lay, c.cmds).0
    ensures OutcomesMirror(Exec(s, env, st, c.source, c.k, fuel), Exec(s', env', st', c.target, c.k, fuel), m, c)
    decreases fuel, s, 0
  {
    EvalAllMirror(s.args, scope, env, env', st.mem, st'.mem, c.k, c.pl);
    hide FunctionsMirror, StatesMirror, EnvMirrors;
    match EvalAll(s.args, env, st.mem, c.k)
    case None =>
    case Some(vs) =>
      if fuel > 0 {
        InvokeMirrors(s.f, vs, st, st', m, c, fuel - 1);
        var o := Invoke(s.f, vs, st, c.source, c.k, fuel - 1);
        var o' := Invoke(s.f, MapVals(vs, c.k, c.pl), st', c.target, c.k, fuel - 1);
        if o.Returned? {
          AssignMirrors(s.lhs, o.v, scope, env, env', o.st, o'.st, m, c);
        }
      }
  }

  lemma {:induction false} WhileUnfolds(s: Stmt, env: Env, st: State, fns: Functions, k: nat, fuel: nat)
    requires s.While?
    ensures Exec(s, env, st, fns, k, fuel) == (
      match Eval(s.c, env, st.mem, k)
      case Some(Int(n)) => if n == 0 then Normal(st) else if fuel == 0 then OutOfFuel else Again(s, env, st, fns, k, fuel)
      case _ => Stuck)
  {
  }

  function Again(s: Stmt, env: Env, st: State, fns: Functions, k: nat, fuel: nat): Outcome
    requires s.While? && fuel > 0
  {
    var o := ExecStmts(s.body, env, st, fns, k, fuel);
    if o.Normal? then Exec(s, env, o.st, fns, k, fuel - 1) else o
  }

  lemma {:induction false} WhileMirrors(s: Stmt, scope: Scope, lay: Layout, env: Env, env': Env, st: State, st': State,
                                        m: Memory, c: Context, fuel: nat, s': Stmt)
    requires s.While?
    requires c.k < NUM_STACKS && FunctionsMirror(c) && StatesMirror(st, st', m, c.k, c.pl) && EnvMirrors(scope, env, env', c.pl, true)
    requires Supported(s, scope, lay, c.cmds, c.names)
    requires s' == Resolve(s, scope, lay, c.cmds).0 && PlacedStmt(s', c.pl)
    ensures OutcomesMirror(Exec(s, env, st, c.source, c.k, fuel), Exec(s', env', st', c.target, c.k, fuel), m, c)
    decreases fuel, s, 0
  {
    EvalMirrors(s.c, scope, env, env', st.mem, st'.mem, c.k, c.pl);
    WhileUnfolds(s, env, st, c.source, c.k, fuel);
    WhileUnfolds(s', env', st', c.target, c.k, fuel);
    hide FunctionsMirror, StatesMirror, EnvMirrors, Exec;
    var v := Eval(s.c, env, st.mem, c.k);
    if v.Some? && v.value.Int? && v.value.n != 0 && fuel > 0 {
      StmtsMirror(s.body, scope, lay, false, env, env', st, st', m, c, fuel, s'.body);
      var o := ExecStmts(s.body, env, st, c.source, c.k, fuel);
      var o' := ExecStmts(s'.body, env', st', c.target, c.k, fuel);
      if o.Normal? {
        WhileMirrors(s, scope, lay, env, env', o.st, o'.st, m, c, fuel - 1, s');
      }
    }
  }
}
