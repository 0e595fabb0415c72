/**
  Lexical scoping, written independently of the walk: which object each identifier names, and the form its declaration
  was given.  On the programs that the globaliser supports, the walk rewrites exactly what this resolution says.
*/
module Lexical {
  import opened Wrappers
  import opened CLang
  import opened Globaliser

  /** An array with a slot per stack, or the n-th array of pointers to an instance per stack. */
  datatype Form = Old | New(n: nat)

  /** What an identifier names; Shared is a variable that the globals file ignores. */
  datatype Binding = Local | FunctionName | Shared(id: ObjectId) | Bound(id: ObjectId, form: Form)

  type Scope = map<string, Binding>

  /** What a declaration's form depends on: how each identifier was first declared, and what has been defined so far. */
  datatype Layout = Layout(front: map<string, Kind>, structs: set<string>, arrays: nat)

  function MangledName(x: string, form: Form): Name {
    match form
    case Old => OldArray(x)
    case New(n) => PtrArray(x, n)
  }

  /** A reference in code. */
  function RefOf(scope: Scope, x: string): Ref {
    if x in scope && scope[x].Bound? then
      if scope[x].form.Old? then Slot(OldArray(x)) else Via(PtrArray(x, scope[x].form.n))
    else Plain(Src(x))
  }

  /** A reference in the initialiser for stack j. */
  function InitRef(scope: Scope, x: string, j: nat): Ref {
    if x in scope && scope[x].Bound? then
      if scope[x].form.Old? then At(OldArray(x), j) else Instance(x, j)
    else Plain(Src(x))
  }

  function ResolveExpr(e: Expr, scope: Scope): Expr {
    MapRefs(e, x => RefOf(scope, x))
  }

  function ResolveExprs(es: seq<Expr>, scope: Scope): seq<Expr> {
    if es == [] then [] else [ResolveExpr(es[0], scope)] + ResolveExprs(es[1..], scope)
  }

  function ResolveInit(e: Expr, scope: Scope, j: nat): Expr {
    MapRefs(e, x => InitRef(scope, x, j))
  }

  function First(lay: Layout, x: string, kind: Kind): Layout {
    if x in lay.front then lay else lay.(front := lay.front[x := kind])
  }

  predicate NeedsInstances(lay: Layout, cmds: Commands, d: VarDef)
    requires d.x in lay.front
  {
    var k := lay.front[d.x];
    d.kind.isArray || (!d.kind.isPointer && k.tag != "" && !k.isPointer && k.tag !in lay.structs) || Configured(cmds, d.x)
  }

  function Declare(lay: Layout, cmds: Commands, d: VarDef): (Layout, Form) {
    var lay1 := First(lay, d.x, d.kind);
    if NeedsInstances(lay1, cmds, d) then (lay1.(arrays := lay1.arrays + 1), New(lay1.arrays)) else (lay1, Old)
  }

  function ResolveDef(d: VarDef, form: Form, scope: Scope): VarDef {
    var inits := match InitOf(d)
                 case None => None
                 case Some(e) => Some(seq(NUM_STACKS, j requires 0 <= j => ResolveInit(e, scope, j)));
    match form
    case Old => d.(shape := Slots(inits))
    case New(n) => d.(shape := Expanded(inits, n))
  }

  /** Each variable is in scope in its own initialiser and in the later ones. */
  function ResolveAutos(defs: seq<AutoVar>, scope: Scope): (seq<AutoVar>, Scope)
    decreases defs
  {
    if defs == [] then ([], scope) else
    var scope1 := scope[defs[0].x := Local];
    var d := match defs[0].init
             case None => defs[0]
             case Some(e) => AutoVar(defs[0].x, Some(ResolveExpr(e, scope1)));
    var (rest, scope2) := ResolveAutos(defs[1..], scope1);
    ([d] + rest, scope2)
  }

  function ResolveStmts(b: Stmts, scope: Scope, lay: Layout, cmds: Commands): (Stmts, Layout)
    decreases b, 1
  {
    match b
    case Done => (Done, lay)
    case Then(s, rest) =>
      var (s1, scope1, lay1) := ResolveStep(s, scope, lay, cmds);
      var (rest1, lay2) := ResolveStmts(rest, scope1, lay1, cmds);
      (Then(s1, rest1), lay2)
  }

  /** A statement, and the scope of those that follow it in its block. */
  function ResolveStep(s: Stmt, scope: Scope, lay: Layout, cmds: Commands): (Stmt, Scope, Layout)
    decreases s, 2
  {
    match s
    case Autos(defs) =>
      var (defs1, scope1) := ResolveAutos(defs, scope);
      (Autos(defs1), scope1, lay)
    case Static(site, d) =>
      var (lay1, form) := Declare(lay, cmds, d);
      var scope1 := scope[d.x := Bound(StaticObject(site), form)];
      (Static(site, ResolveDef(d, form, scope1)), scope1, lay1)
    case _ =>
      var (s1, lay1) := Resolve(s, scope, lay, cmds);
      (s1, scope, lay1)
  }

  function Resolve(s: Stmt, scope: Scope, lay: Layout, cmds: Commands): (Stmt, Layout)
    decreases s, 1
  {
    match s
    case Assign(lhs, rhs) => (Assign(ResolveExpr(lhs, scope), ResolveExpr(rhs, scope)), lay)
    case Call(lhs, f, args) => (Call(ResolveExpr(lhs, scope), f, ResolveExprs(args, scope)), lay)
    case If(c, yes, no) =>
      var (yes1, lay1) := ResolveStmts(yes, scope, lay, cmds);
      var (no1, lay2) := ResolveStmts(no, scope, lay1, cmds);
      (If(ResolveExpr(c, scope), yes1, no1), lay2)
    case While(c, body) =>
      var (body1, lay1) := ResolveStmts(body, scope, lay, cmds);
      (While(ResolveExpr(c, scope), body1), lay1)
    case Block(body) =>
      var (body1, lay1) := ResolveStmts(body, scope, lay, cmds);
      (Block(body1), lay1)
    case Return(e) => (Return(ResolveExpr(e, scope)), lay)
    case _ => (s, lay)
  }

  function Locals(scope: Scope, xs: seq<string>): Scope
    decreases xs
  {
    if xs == [] then scope else Locals(scope[xs[0] := Local], xs[1..])
  }

  function ResolveItem(item: Item, scope: Scope, lay: Layout, cmds: Commands): (Item, Scope, Layout) {
    match item
    case Struct(tag) => (item, scope, lay.(structs := lay.structs + {tag}))
    case Global(d) =>
      if IsGlobal(cmds, d.x) then
        var (lay1, form) := Declare(lay, cmds, d);
        var scope1 := scope[d.x := Bound(GlobalObject(d.x), form)];
        (Global(ResolveDef(d, form, scope1)), scope1, lay1)
      else
        var scope1 := scope[d.x := Shared(GlobalObject(d.x))];
        (Global(ResolveIgnored(d, scope1)), scope1, lay)
    case Function(f, params, body) =>
      var scope1 := scope[f := FunctionName];
      var (body1, lay1) :=
        ResolveStmts(body, Locals(scope1, params), First(lay, f, Kind(false, false, "")), cmds);
      (Function(f, params, body1), scope1, lay1)
  }

  function ResolveIgnored(d: VarDef, scope: Scope): VarDef {
    match InitOf(d)
    case None => d
    case Some(e) => d.(shape := Single(Some(ResolveInit(e, scope, 0))))
  }

  function ResolveItems(p: Program, scope: Scope, lay: Layout, cmds: Commands): Program
    decreases p
  {
    if p == [] then [] else
    var (item, scope1, lay1) := ResolveItem(p[0], scope, lay, cmds);
    [item] + ResolveItems(p[1..], scope1, lay1, cmds)
  }

  // ---------------------------------------------------------------- the programs that the walk supports

  /** A source expression whose identifiers are all in scope. */
  predicate Uses(e: Expr, names: set<string>) {
    match e
    case Num(_) => true
    case Id(r) => r.Plain? && r.name.Src? && r.name.x in names
    case Deref(a) => Uses(a, names)
    case Addr(a) => Uses(a, names)
    case Binary(_, a, b) => Uses(a, names) && Uses(b, names)
  }

  predicate UsesAll(es: seq<Expr>, names: set<string>) {
    forall i :: 0 <= i < |es| ==> Uses(es[i], names)
  }

  function NamesOf(e: Expr): set<string> {
    match e
    case Num(_) => {}
    case Id(r) => if r.Plain? && r.name.Src? then {r.name.x} else {}
    case Deref(a) => NamesOf(a)
    case Addr(a) => NamesOf(a)
    case Binary(_, a, b) => NamesOf(a) + NamesOf(b)
  }

  predicate Mentions(e: Expr, xs: seq<string>) {
    exists x :: x in xs && x in NamesOf(e)
  }

  /** No initialiser mentions a variable declared after it in the same declaration. */
  predicate SupportedAutos(defs: seq<AutoVar>, names: set<string>) {
    defs == [] ||
    (&& (defs[0].init.Some? ==>
          Uses(defs[0].init.value, names + {defs[0].x}) && !Mentions(defs[0].init.value, AutoNames(defs[1..])))
     && SupportedAutos(defs[1..], names + {defs[0].x}))
  }

  /** A name that was given instances before. */
  predicate HasInstances(scope: Scope, x: string) {
    x in scope && scope[x].Bound? && scope[x].form.New?
  }

  /** A source declaration; the first one that gets instances does not mention itself. */
  predicate SupportedDef(d: VarDef, form: Form, scope: Scope) {
    && d.shape.Single?
    && (d.shape.init.Some? ==>
          && Uses(d.shape.init.value, scope.Keys + {d.x})
          && (form.New? && Mentions(d.shape.init.value, [d.x]) ==> HasInstances(scope, d.x)))
  }

  /** A static local hides no automatic or static variable of the function, and has no function's or ignored name. */
  predicate SupportedStatic(x: string, scope: Scope, cmds: Commands, fns: set<string>) {
    IsGlobal(cmds, x) && x !in fns && (x in scope ==> scope[x].Bound? && scope[x].id.GlobalObject?)
  }

  /** Full is whether the block already has a static declaration: it can have one only. */
  predicate SupportedStmts(b: Stmts, scope: Scope, lay: Layout, cmds: Commands, fns: set<string>, full: bool)
    decreases b, 1
  {
    match b
    case Done => true
    case Then(s, rest) =>
      var (_, scope1, lay1) := ResolveStep(s, scope, lay, cmds);
      SupportedStep(s, scope, lay, cmds, fns, full) && SupportedStmts(rest, scope1, lay1, cmds, fns, full || s.Static?)
  }

  predicate SupportedStep(s: Stmt, scope: Scope, lay: Layout, cmds: Commands, fns: set<string>, full: bool)
    decreases s, 2
  {
    match s
    case Autos(defs) => SupportedAutos(defs, scope.Keys)
    case Static(site, d) =>
      !full && SupportedStatic(d.x, scope, cmds, fns) && SupportedDef(d, Declare(lay, cmds, d).1, scope)
    case _ => Supported(s, scope, lay, cmds, fns)
  }

  predicate Supported(s: Stmt, scope: Scope, lay: Layout, cmds: Commands, fns: set<string>)
    decreases s, 1
  {
    match s
    case Assign(lhs, rhs) => Uses(lhs, scope.Keys) && Uses(rhs, scope.Keys)
    case Call(lhs, _, args) => Uses(lhs, scope.Keys) && UsesAll(args, scope.Keys)
    case If(c, yes, no) =>
      && Uses(c, scope.Keys) && SupportedStmts(yes, scope, lay, cmds, fns, false)
      && SupportedStmts(no, scope, ResolveStmts(yes, scope, lay, cmds).1, cmds, fns, false)
    case While(c, body) => Uses(c, scope.Keys) && SupportedStmts(body, scope, lay, cmds, fns, false)
    case Block(body) => SupportedStmts(body, scope, lay, cmds, fns, false)
    case Return(e) => Uses(e, scope.Keys)
    case _ => true
  }

  predicate SupportedItem(item: Item, scope: Scope, lay: Layout, cmds: Commands, fns: set<string>) {
    match item
    case Struct(_) => true
    case Global(d) =>
      && d.x !in fns
      && SupportedDef(d, if IsGlobal(cmds, d.x) then Declare(lay, cmds, d).1 else Old, scope)
    case Function(f, params, body) =>
      && f in fns
      && SupportedStmts(body, Locals(scope[f := FunctionName], params), First(lay, f, Kind(false, false, "")),
                        cmds, fns, false)
  }

  predicate SupportedItems(p: Program, scope: Scope, lay: Layout, cmds: Commands, fns: set<string>)
    decreases p
  {
    p == [] ||
    (&& SupportedItem(p[0], scope, lay, cmds, fns)
     && var (_, scope1, lay1) := ResolveItem(p[0], scope, lay, cmds);
        SupportedItems(p[1..], scope1, lay1, cmds, fns))
  }

  function FunctionNames(p: Program): set<string> {
    set item | item in p && item.Function? :: item.f
  }

  function ResolveProgram(p: Program, cmds: Commands): Program {
    ResolveItems(p, map[], Layout(map[], {}, 0), cmds)
  }

  predicate SupportedProgram(p: Program, cmds: Commands) {
    SupportedItems(p, map[], Layout(map[], {}, 0), cmds, FunctionNames(p))
  }
}
