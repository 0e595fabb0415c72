/**
  The scoped walk of the globaliser (nsc-0.5.3/globaliser/node.cc) and its symbol table
  (nsc-0.5.3/globaliser/handle_global.cc).  The walk is a class whose fields the methods push to and pop from; each
  method is tied to a function on the values of those fields.
*/
module Globaliser {
  import opened Wrappers
  import opened CLang

  // ---------------------------------------------------------------- the globals file

  datatype Command = Listed | Ignored | ExpandDecl

  type Commands = map<string, Command>

  /** Every variable is rewritten unless the file says otherwise. */
  predicate IsGlobal(cmds: Commands, x: string) {
    x in cmds ==> cmds[x] != Ignored
  }

  predicate Configured(cmds: Commands, x: string) {
    x in cmds && cmds[x] == ExpandDecl
  }

  // ---------------------------------------------------------------- the symbol table

  /** One of an identifier's stacked records; the mangled name is there once the definition has been rewritten. */
  datatype Symbol = Symbol(isFunction: bool, tag: string, isPointer: bool, isArray: bool, mangled: Option<Name>)

  /**
    The state of the walk: records per identifier, struct tags defined so far, the number of the next pointer array,
    the live automatic and static locals, and whether the walk has met an error that ends the program.
  */
  datatype Tables = Tables(symbols: map<string, seq<Symbol>>, structs: set<string>, arrays: nat,
                           locals: seq<string>, statics: seq<string>, failed: bool)

  function Records(t: Tables, x: string): seq<Symbol> {
    if x in t.symbols then t.symbols[x] else []
  }

  predicate IsFunction(t: Tables, x: string) {
    var rs := Records(t, x);
    rs != [] && rs[|rs| - 1].isFunction
  }

  predicate IsDeclared(t: Tables, x: string) {
    var rs := Records(t, x);
    rs != [] && !rs[|rs| - 1].isFunction
  }

  function Push(t: Tables, x: string, s: Symbol): Tables {
    t.(symbols := t.symbols[x := Records(t, x) + [s]])
  }

  function Undefine(t: Tables, x: string): Tables {
    var rs := Records(t, x);
    if rs == [] then t.(failed := true) else t.(symbols := t.symbols[x := rs[..|rs| - 1]])
  }

  /** The most recent record with a mangled name. */
  function Latest(rs: seq<Symbol>): (r: Option<Symbol>)
    ensures r.Some? ==> r.value.mangled.Some?
  {
    if rs == [] then None
    else if rs[|rs| - 1].mangled.Some? then Some(rs[|rs| - 1])
    else Latest(rs[..|rs| - 1])
  }

  /** The identifier's first record decides. */
  predicate UndefinedStruct(t: Tables, x: string) {
    var rs := Records(t, x);
    rs != [] && !rs[0].isFunction && rs[0].tag != "" && !rs[0].isPointer && rs[0].tag !in t.structs
  }

  predicate Expands(t: Tables, cmds: Commands, x: string, isPointer: bool, isArray: bool) {
    (!isPointer && !isArray && UndefinedStruct(t, x)) || Configured(cmds, x)
  }

  // ---------------------------------------------------------------- identifiers

  predicate IsRewritten(t: Tables, cmds: Commands, x: string) {
    if x in t.locals || IsFunction(t, x) then false
    else x in t.statics || (IsDeclared(t, x) && IsGlobal(cmds, x))
  }

  /** What an identifier becomes, in code or in a constant initialiser; nothing when it has no mangled record. */
  function Leaf(t: Tables, cmds: Commands, x: string, toplevel: bool): Option<Ref> {
    if !IsRewritten(t, cmds, x) then Some(Plain(Src(x))) else
    match Latest(Records(t, x))
    case None => None
    case Some(m) =>
      if toplevel then
        Some(if m.isArray then Instance(x, 0) else Slot(m.mangled.value))
      else
        Some(if m.isArray || Expands(t, cmds, x, m.isPointer, m.isArray) then Via(m.mangled.value) else Slot(m.mangled.value))
  }

  predicate LeafFails(t: Tables, cmds: Commands, x: string, toplevel: bool) {
    Leaf(t, cmds, x, toplevel).None?
  }

  function LeafRef(t: Tables, cmds: Commands, x: string, toplevel: bool): Ref {
    Leaf(t, cmds, x, toplevel).UnwrapOr(Plain(Src(x)))
  }

  function HgrExpr(t: Tables, cmds: Commands, e: Expr, toplevel: bool): Expr {
    MapRefs(e, x => LeafRef(t, cmds, x, toplevel))
  }

  function HgrExprs(t: Tables, cmds: Commands, es: seq<Expr>): seq<Expr> {
    if es == [] then [] else [HgrExpr(t, cmds, es[0], false)] + HgrExprs(t, cmds, es[1..])
  }

  predicate Fails(t: Tables, cmds: Commands, e: Expr, toplevel: bool) {
    AnyRef(e, x => LeafFails(t, cmds, x, toplevel))
  }

  function Check(t: Tables, cmds: Commands, e: Expr, toplevel: bool): Tables {
    t.(failed := t.failed || Fails(t, cmds, e, toplevel))
  }

  function CheckAll(t: Tables, cmds: Commands, es: seq<Expr>): Tables
    decreases es
  {
    if es == [] then t else CheckAll(Check(t, cmds, es[0], false), cmds, es[1..])
  }

  // ---------------------------------------------------------------- definitions

  /** In the copy for stack j, the text of the initialiser refers to slots and instances j. */
  function Instantiate(e: Expr, j: nat): Expr {
    match e
    case Num(_) => e
    case Id(Slot(a)) => Id(At(a, j))
    case Id(Instance(x, 0)) => Id(Instance(x, j))
    case Id(_) => e
    case Deref(a) => Deref(Instantiate(a, j))
    case Addr(a) => Addr(Instantiate(a, j))
    case Binary(op, a, b) => Binary(op, Instantiate(a, j), Instantiate(b, j))
  }

  function InitOf(d: VarDef): Option<Expr> {
    if d.shape.Single? then d.shape.init else None
  }

  /** One copy of the initialiser per stack. */
  function Copies(t: Tables, cmds: Commands, init: Option<Expr>): Option<seq<Expr>> {
    match init
    case None => None
    case Some(e) =>
      var walked := HgrExpr(t, cmds, e, true);
      Some(seq(NUM_STACKS, j requires 0 <= j => Instantiate(walked, j)))
  }

  function CheckInit(t: Tables, cmds: Commands, init: Option<Expr>, toplevel: bool): Tables {
    match init
    case None => t
    case Some(e) => Check(t, cmds, e, toplevel)
  }

  /** Whether a declaration has any identifier that is not ignored.  The tag of a struct is no identifier. */
  predicate NeedsGlobalising(cmds: Commands, d: VarDef) {
    IsGlobal(cmds, d.x) || (InitOf(d).Some? && AnyRef(InitOf(d).value, x => IsGlobal(cmds, x)))
  }

  /** Rewrites a file-scope or static declaration. */
  function HandleGlobal(t: Tables, cmds: Commands, d: VarDef, isStatic: bool): (Tables, VarDef) {
    if !NeedsGlobalising(cmds, d) then (t, d)
    else if !isStatic && IsFunction(t, d.x) then (t.(failed := true), d)
    else
      var t1 := Push(t, d.x, Symbol(false, d.kind.tag, d.kind.isPointer, false, None));
      if !isStatic && !IsGlobal(cmds, d.x) then IgnoredDefinition(t1, cmds, d)
      else
        var t2 := if isStatic then t1.(statics := t1.statics + [d.x]) else t1;
        if d.kind.isArray || Expands(t1, cmds, d.x, d.kind.isPointer, d.kind.isArray) then NewDefinition(t2, cmds, d)
        else OldDefinition(t2, cmds, d)
  }

  /** An ignored variable stays single; its initialiser refers to the objects of stack 0. */
  function IgnoredDefinition(t: Tables, cmds: Commands, d: VarDef): (Tables, VarDef) {
    match InitOf(d)
    case None => (t, d)
    case Some(e) => (Check(t, cmds, e, true), d.(shape := Single(Some(Instantiate(HgrExpr(t, cmds, e, true), 0)))))
  }

  /** An array with a slot per stack.  The name is defined before the initialiser is walked. */
  function OldDefinition(t: Tables, cmds: Commands, d: VarDef): (Tables, VarDef) {
    var t1 := Push(t, d.x, Symbol(false, "", d.kind.isPointer, false, Some(OldArray(d.x))));
    (CheckInit(t1, cmds, InitOf(d), true), d.(shape := Slots(Copies(t1, cmds, InitOf(d)))))
  }

  /** An instance per stack and an array of pointers to them.  The initialiser is walked before the name is defined. */
  function NewDefinition(t: Tables, cmds: Commands, d: VarDef): (Tables, VarDef) {
    var t1 := CheckInit(t, cmds, InitOf(d), true);
    (Push(t1.(arrays := t1.arrays + 1), d.x, Symbol(false, "", d.kind.isPointer, true, Some(PtrArray(d.x, t1.arrays)))),
     d.(shape := Expanded(Copies(t, cmds, InitOf(d)), t1.arrays)))
  }

  // ---------------------------------------------------------------- statements

  function PopLocals(t: Tables, n: nat): Tables {
    t.(locals := t.locals[..if n <= |t.locals| then |t.locals| - n else 0])
  }

  function PopStatics(t: Tables, n: nat): Tables
    decreases n
  {
    if n == 0 then t
    else if t.statics == [] then t.(failed := true)
    else
      var last := |t.statics| - 1;
      PopStatics(Undefine(t, t.statics[last]).(statics := t.statics[..last]), n - 1)
  }

  /** The initialisers of automatic variables, walked when all their names are known. */
  function HgrAutos(t: Tables, cmds: Commands, defs: seq<AutoVar>): (Tables, seq<AutoVar>)
    decreases defs
  {
    if defs == [] then (t, []) else
    var t1 := CheckInit(t, cmds, defs[0].init, false);
    var (t2, rest) := HgrAutos(t1, cmds, defs[1..]);
    (t2, [HgrAuto(t, cmds, defs[0])] + rest)
  }

  function HgrAuto(t: Tables, cmds: Commands, d: AutoVar): AutoVar {
    match d.init
    case None => d
    case Some(e) => AutoVar(d.x, Some(HgrExpr(t, cmds, e, false)))
  }

  /** A static declaration; the count is of the static locals it leaves to be popped. */
  function HgrStatic(t: Tables, cmds: Commands, d: VarDef): (Tables, VarDef, nat) {
    var (t1, d1) := HandleGlobal(t, cmds, d, true);
    if NeedsGlobalising(cmds, d) || InitOf(d).None? then (t1, d1, if NeedsGlobalising(cmds, d) then 1 else 0) else
    (Check(t, cmds, InitOf(d).value, false), d.(shape := Single(Some(HgrExpr(t, cmds, InitOf(d).value, false)))), 0)
  }

  /** The rest of a statement list of which numLocals and numStatics names are to be popped at the end. */
  function HgrStmts(t: Tables, cmds: Commands, b: Stmts, numLocals: nat, numStatics: nat): (Tables, Stmts)
    decreases b, 1
  {
    match b
    case Done => (PopStatics(PopLocals(t, numLocals), numStatics), Done)
    case Then(s, rest) =>
      var (t1, s1, locals, statics) := HgrStep(t, cmds, s, numStatics);
      var (t2, rest1) := HgrStmts(t1, cmds, rest, numLocals + locals, statics);
      (t2, Then(s1, rest1))
  }

  /** One statement of a list: how many locals it adds, and how many static locals the list then counts. */
  function HgrStep(t: Tables, cmds: Commands, s: Stmt, numStatics: nat): (Tables, Stmt, nat, nat)
    decreases s, 2
  {
    match s
    case Autos(defs) =>
      var (t1, defs1) := HgrAutos(t.(locals := t.locals + AutoNames(defs)), cmds, defs);
      (t1, Autos(defs1), |defs|, numStatics)
    case Static(site, d) =>
      var (t1, d1, n) := HgrStatic(t, cmds, d);
      (t1, Static(site, d1), 0, n)
    case _ =>
      var (t1, s1) := Hgr(t, cmds, s);
      (t1, s1, 0, numStatics)
  }

  function Hgr(t: Tables, cmds: Commands, s: Stmt): (Tables, Stmt)
    decreases s, 1
  {
    match s
    case Assign(lhs, rhs) =>
      (Check(Check(t, cmds, lhs, false), cmds, rhs, false),
       Assign(HgrExpr(t, cmds, lhs, false), HgrExpr(t, cmds, rhs, false)))
    case Call(lhs, f, args) =>
      (CheckAll(Check(t, cmds, lhs, false), cmds, args), Call(HgrExpr(t, cmds, lhs, false), f, HgrExprs(t, cmds, args)))
    case If(c, yes, no) =>
      var (t1, yes1) := HgrStmts(Check(t, cmds, c, false), cmds, yes, 0, 0);
      var (t2, no1) := HgrStmts(t1, cmds, no, 0, 0);
      (t2, If(HgrExpr(t, cmds, c, false), yes1, no1))
    case While(c, body) =>
      var (t1, body1) := HgrStmts(Check(t, cmds, c, false), cmds, body, 0, 0);
      (t1, While(HgrExpr(t, cmds, c, false), body1))
    case Block(body) =>
      var (t1, body1) := HgrStmts(t, cmds, body, 0, 0);
      (t1, Block(body1))
    case Return(e) => (Check(t, cmds, e, false), Return(HgrExpr(t, cmds, e, false)))
    case _ => (t, s)
  }

  // ---------------------------------------------------------------- the file

  function DefineFunction(t: Tables, f: string): Tables {
    if Records(t, f) == [] then Push(t, f, Symbol(true, "", false, false, None))
    else if IsFunction(t, f) then t
    else t.(failed := true)
  }

  function HandleItem(t: Tables, cmds: Commands, item: Item): (Tables, Item) {
    match item
    case Struct(tag) => (t.(structs := t.structs + {tag}), item)
    case Global(d) =>
      var (t1, d1) := HandleGlobal(t, cmds, d, false);
      (t1, Global(d1))
    case Function(f, params, body) =>
      var t1 := DefineFunction(t, f);
      var (t2, body1) := HgrStmts(t1.(locals := t1.locals + params), cmds, body, 0, 0);
      (PopLocals(t2, |params|), Function(f, params, body1))
  }

  function HandleItems(t: Tables, cmds: Commands, p: Program): (Tables, Program)
    decreases p
  {
    if p == [] then (t, []) else
    var (t1, item) := HandleItem(t, cmds, p[0]);
    var (t2, rest) := HandleItems(t1, cmds, p[1..]);
    (t2, [item] + rest)
  }

  const Empty := Tables(map[], {}, 0, [], [], false)
}
