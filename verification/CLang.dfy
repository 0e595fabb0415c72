/**
  The part of C that the globaliser is modelled on (nsc-0.5.3/globaliser): blocks, automatic and static declarations,
  assignments, calls, pointers.  One language serves for the source and for the output; the output also has arrays with
  one element per network stack.
*/
module CLang {
  import opened Wrappers

  const NUM_STACKS: nat := 50

  /**
    Identifiers, by what they are made of: `x`, `global_x`, the instances `_GLOBAL_0_x_I` to `_GLOBAL_49_x_I` taken
    together, and the array `_GLOBAL_x_n_A` of pointers to them.
  */
  datatype Name = Src(x: string) | OldArray(x: string) | Family(x: string) | PtrArray(x: string, n: nat)

  /** `x`, `a[get_stack_id()]`, `a[j]`, `(*a[get_stack_id()])` and `_GLOBAL_j_x_I`. */
  datatype Ref = Plain(name: Name) | Slot(name: Name) | At(name: Name, j: nat) | Via(name: Name)
               | Instance(x: string, j: nat)

  datatype Op = Plus | Minus | Less | Equal

  datatype Expr = Num(n: int) | Id(r: Ref) | Deref(e: Expr) | Addr(e: Expr) | Binary(op: Op, a: Expr, b: Expr)

  /**
    What a declaration says of its variable: an array, with a bound or without one, a pointer, and the tag of its struct
    type ("" for none).  A variable of a type that is defined as an array is not an array here.
  */
  datatype Kind = Kind(isArray: bool, isPointer: bool, tag: string)

  /**
    What a declaration declares: one variable, an array with a slot per stack, or an instance per stack with the n-th
    array of pointers to them.
  */
  datatype Shape = Single(init: Option<Expr>) | Slots(inits: Option<seq<Expr>>) | Expanded(inits: Option<seq<Expr>>, n: nat)

  datatype VarDef = VarDef(x: string, kind: Kind, shape: Shape)

  datatype AutoVar = AutoVar(x: string, init: Option<Expr>)

  /** The site tells the static declarations of a program apart. */
  datatype Stmt =
    | Assign(lhs: Expr, rhs: Expr)
    | Call(lhs: Expr, f: string, args: seq<Expr>)
    | If(c: Expr, yes: Stmts, no: Stmts)
    | While(c: Expr, body: Stmts)
    | Block(body: Stmts)
    | Return(e: Expr)
    | Autos(defs: seq<AutoVar>)
    | Static(site: nat, d: VarDef)

  datatype Stmts = Done | Then(first: Stmt, rest: Stmts)

  datatype Item = Struct(tag: string) | Global(d: VarDef) | Function(f: string, params: seq<string>, body: Stmts)

  type Program = seq<Item>

  /** Rewrites the plain identifiers of an expression. */
  function MapRefs(e: Expr, f: string -> Ref): Expr {
    match e
    case Num(_) => e
    case Id(r) => if r.Plain? && r.name.Src? then Id(f(r.name.x)) else e
    case Deref(a) => Deref(MapRefs(a, f))
    case Addr(a) => Addr(MapRefs(a, f))
    case Binary(op, a, b) => Binary(op, MapRefs(a, f), MapRefs(b, f))
  }

  /** Whether some plain identifier of an expression satisfies p. */
  predicate AnyRef(e: Expr, p: string -> bool) {
    match e
    case Num(_) => false
    case Id(r) => r.Plain? && r.name.Src? && p(r.name.x)
    case Deref(a) => AnyRef(a, p)
    case Addr(a) => AnyRef(a, p)
    case Binary(_, a, b) => AnyRef(a, p) || AnyRef(b, p)
  }

  // ---------------------------------------------------------------- values

  datatype ObjectId = GlobalObject(x: string) | StaticObject(site: nat)

  /** Memory: automatic variables, objects, the j-th slot or instance of an object, and the cells of pointer arrays. */
  datatype Loc = Auto(n: nat) | Object(id: ObjectId) | SlotOf(l: Loc, j: nat) | InstanceOf(l: Loc, j: nat)
               | PtrCell(n: nat, j: nat)

  datatype Val = Int(n: int) | Ptr(l: Loc)

  type Memory = map<Loc, Val>

  /** What a name stands for. */
  datatype Den = Variable(l: Loc) | SlotArray(l: Loc) | Instances(l: Loc) | PointerArray(n: nat)

  type Env = map<Name, Den>

  /** The location a reference names, in code run by stack k. */
  function LocateRef(r: Ref, env: Env, mem: Memory, k: nat): Option<Loc> {
    match r
    case Plain(name) =>
      if name in env && env[name].Variable? then Some(env[name].l) else None
    case Slot(name) =>
      if name in env && env[name].SlotArray? then Some(SlotOf(env[name].l, k)) else None
    case At(name, j) =>
      if name in env && env[name].SlotArray? then Some(SlotOf(env[name].l, j)) else None
    case Via(name) =>
      if name in env && env[name].PointerArray? then AsPointer(Read(mem, PtrCell(env[name].n, k))) else None
    case Instance(x, j) =>
      if Family(x) in env && env[Family(x)].Instances? then Some(InstanceOf(env[Family(x)].l, j)) else None
  }

  function Read(mem: Memory, l: Loc): Option<Val> {
    if l in mem then Some(mem[l]) else None
  }

  function AsPointer(v: Option<Val>): Option<Loc> {
    if v.Some? && v.value.Ptr? then Some(v.value.l) else None
  }

  /** The location of an lvalue, or nothing where C has no meaning. */
  function Locate(e: Expr, env: Env, mem: Memory, k: nat): Option<Loc> {
    match e
    case Id(r) => LocateRef(r, env, mem, k)
    case Deref(p) => AsPointer(Eval(p, env, mem, k))
    case _ => None
  }

  function Eval(e: Expr, env: Env, mem: Memory, k: nat): Option<Val> {
    match e
    case Num(n) => Some(Int(n))
    case Id(r) =>
      var l := LocateRef(r, env, mem, k);
      if l.Some? then Read(mem, l.value) else None
    case Deref(p) =>
      var l := AsPointer(Eval(p, env, mem, k));
      if l.Some? then Read(mem, l.value) else None
    case Addr(a) =>
      var l := Locate(a, env, mem, k);
      if l.Some? then Some(Ptr(l.value)) else None
    case Binary(op, a, b) =>
      var v, w := Eval(a, env, mem, k), Eval(b, env, mem, k);
      if v.Some? && w.Some? then Apply(op, v.value, w.value) else None
  }

  function Apply(op: Op, v: Val, w: Val): Option<Val> {
    match op
    case Equal => Some(Int(if v == w then 1 else 0))
    case Plus => if v.Int? && w.Int? then Some(Int(v.n + w.n)) else None
    case Minus => if v.Int? && w.Int? then Some(Int(v.n - w.n)) else None
    case Less => if v.Int? && w.Int? then Some(Int(if v.n < w.n then 1 else 0)) else None
  }

  function EvalAll(es: seq<Expr>, env: Env, mem: Memory, k: nat): Option<seq<Val>> {
    if es == [] then Some([]) else
    var v, vs := Eval(es[0], env, mem, k), EvalAll(es[1..], env, mem, k);
    if v.Some? && vs.Some? then Some([v.value] + vs.value) else None
  }

  // ---------------------------------------------------------------- running

  /** Memory, and how many automatic variables the run has created. */
  datatype State = State(mem: Memory, next: nat)

  /** OutOfFuel is no outcome yet; Stuck is what C leaves undefined. */
  datatype Outcome = OutOfFuel | Stuck | Normal(st: State) | Returned(v: Val, st: State)

  /** A function with the file-scope names that were declared before it. */
  datatype Closure = Closure(params: seq<string>, body: Stmts, env: Env)

  type Functions = map<string, Closure>

  function Bind(env: Env, id: ObjectId, d: VarDef): Env {
    match d.shape
    case Single(_) => env[Src(d.x) := Variable(Object(id))]
    case Slots(_) => env[OldArray(d.x) := SlotArray(Object(id))]
    case Expanded(_, n) => env[Family(d.x) := Instances(Object(id))][PtrArray(d.x, n) := PointerArray(n)]
  }

  function NewAuto(x: string, env: Env, st: State): (Env, State) {
    (env[Src(x) := Variable(Auto(st.next))], State(st.mem - {Auto(st.next)}, st.next + 1))
  }

  /** Declares and initialises one variable after the other. */
  function DeclareAutos(defs: seq<AutoVar>, env: Env, st: State, k: nat): Option<(Env, State)> {
    if defs == [] then Some((env, st)) else
    var (env1, st1) := NewAuto(defs[0].x, env, st);
    match defs[0].init
    case None => DeclareAutos(defs[1..], env1, st1, k)
    case Some(e) =>
      match Eval(e, env1, st1.mem, k)
      case None => None
      case Some(v) => DeclareAutos(defs[1..], env1, st1.(mem := st1.mem[Auto(st.next) := v]), k)
  }

  function BindParams(params: seq<string>, args: seq<Val>, env: Env, st: State): (Env, State)
    requires |params| == |args|
  {
    if params == [] then (env, st) else
    var (env1, st1) := NewAuto(params[0], env, st);
    BindParams(params[1..], args[1..], env1, st1.(mem := st1.mem[Auto(st.next) := args[0]]))
  }

  function Store(lhs: Expr, v: Val, env: Env, st: State, k: nat): Outcome {
    match Locate(lhs, env, st.mem, k)
    case None => Stuck
    case Some(l) => Normal(st.(mem := st.mem[l := v]))
  }

  /** A call by stack k with its arguments evaluated. */
  function Invoke(f: string, args: seq<Val>, st: State, fns: Functions, k: nat, fuel: nat): Outcome
    decreases fuel, Done, 0
  {
    if fuel == 0 then OutOfFuel else
    if f !in fns || |args| != |fns[f].params| then Stuck else
    var (env, st1) := BindParams(fns[f].params, args, fns[f].env, st);
    match ExecStmts(fns[f].body, env, st1, fns, k, fuel - 1)
    case Normal(st2) => Returned(Int(0), st2)
    case out => out
  }

  function ExecStmts(b: Stmts, env: Env, st: State, fns: Functions, k: nat, fuel: nat): Outcome
    decreases fuel, b, 1
  {
    match b
    case Done => Normal(st)
    case Then(s, rest) =>
      var (out, env1) := ExecStep(s, env, st, fns, k, fuel);
      match out
      case Normal(st1) => ExecStmts(rest, env1, st1, fns, k, fuel)
      case _ => out
  }

  /** A statement, and the names of those that follow it in its block. */
  function ExecStep(s: Stmt, env: Env, st: State, fns: Functions, k: nat, fuel: nat): (Outcome, Env)
    decreases fuel, s, 2
  {
    match s
    case Autos(defs) =>
      (match DeclareAutos(defs, env, st, k)
       case None => (Stuck, env)
       case Some((env1, st1)) => (Normal(st1), env1))
    case Static(site, d) => (Normal(st), Bind(env, StaticObject(site), d))
    case _ => (Exec(s, env, st, fns, k, fuel), env)
  }

  function Exec(s: Stmt, env: Env, st: State, fns: Functions, k: nat, fuel: nat): Outcome
    decreases fuel, s, 1
  {
    match s
    case Assign(lhs, rhs) =>
      (match Eval(rhs, env, st.mem, k)
       case None => Stuck
       case Some(v) => Store(lhs, v, env, st, k))
    case Call(lhs, f, args) =>
      (match EvalAll(args, env, st.mem, k)
       case None => Stuck
       case Some(vs) =>
         if fuel == 0 then OutOfFuel else
         match Invoke(f, vs, st, fns, k, fuel - 1)
         case Returned(v, st1) => Store(lhs, v, env, st1, k)
         case out => out)
    case If(c, yes, no) =>
      (match Eval(c, env, st.mem, k)
       case Some(Int(n)) => ExecStmts(if n != 0 then yes else no, env, st, fns, k, fuel)
       case _ => Stuck)
    case While(c, body) =>
      (match Eval(c, env, st.mem, k)
       case Some(Int(n)) =>
         if n == 0 then Normal(st) else
         if fuel == 0 then OutOfFuel else
         (match ExecStmts(body, env, st, fns, k, fuel)
          case Normal(st1) => Exec(s, env, st1, fns, k, fuel - 1)
          case out => out)
       case _ => Stuck)
    case Block(body) => ExecStmts(body, env, st, fns, k, fuel)
    case Return(e) =>
      (match Eval(e, env, st.mem, k)
       case None => Stuck
       case Some(v) => Returned(v, st))
    case _ => Normal(st)
  }

  // ---------------------------------------------------------------- loading

  /** A program in memory: its file-scope names, its functions, and the initial contents of its static objects. */
  datatype Machine = Machine(env: Env, fns: Functions, mem: Memory)

  /** Initialisers are constant: they cannot read memory. */
  function InitOne(l: Loc, init: Option<Expr>, env: Env, mem: Memory): Option<Memory> {
    match init
    case None => Some(if l in mem then mem else mem[l := Int(0)])
    case Some(e) =>
      match Eval(e, env, map[], 0)
      case None => None
      case Some(v) => Some(mem[l := v])
  }

  /** The slots or instances from j on. */
  function InitFrom(d: VarDef, l: Loc, env: Env, mem: Memory, j: nat): Option<Memory>
    requires !d.shape.Single? && (d.shape.inits.Some? ==> |d.shape.inits.value| == NUM_STACKS)
    decreases NUM_STACKS - j
  {
    if j >= NUM_STACKS then Some(mem) else
    var init := if d.shape.inits.None? then None else Some(d.shape.inits.value[j]);
    match InitOne(if d.shape.Slots? then SlotOf(l, j) else InstanceOf(l, j), init, env, mem)
    case None => None
    case Some(m) =>
      InitFrom(d, l, env, if d.shape.Slots? then m else m[PtrCell(d.shape.n, j) := Ptr(InstanceOf(l, j))], j + 1)
  }

  function InitDef(d: VarDef, l: Loc, env: Env, mem: Memory): Option<Memory> {
    if d.shape.Single? then InitOne(l, d.shape.init, env, mem)
    else if d.shape.inits.Some? && |d.shape.inits.value| != NUM_STACKS then None
    else InitFrom(d, l, env, mem, 0)
  }

  function Without(env: Env, xs: seq<string>): Env {
    if xs == [] then env else Without(env - {Src(xs[0])}, xs[1..])
  }

  function AutoNames(defs: seq<AutoVar>): (xs: seq<string>)
    ensures |xs| == |defs| && forall i :: 0 <= i < |defs| ==> xs[i] == defs[i].x
  {
    seq(|defs|, i requires 0 <= i < |defs| => defs[i].x)
  }

  /** The static declarations of a block; an automatic variable has no address yet. */
  function LoadStmts(b: Stmts, env: Env, mem: Memory): Option<Memory>
    decreases b, 1
  {
    match b
    case Done => Some(mem)
    case Then(s, rest) =>
      match LoadStep(s, env, mem)
      case None => None
      case Some(m) => LoadStmts(rest, LoadEnv(s, env), m)
  }

  function LoadEnv(s: Stmt, env: Env): Env {
    match s
    case Autos(defs) => Without(env, AutoNames(defs))
    case Static(site, d) => Bind(env, StaticObject(site), d)
    case _ => env
  }

  function LoadStep(s: Stmt, env: Env, mem: Memory): Option<Memory>
    decreases s, 2
  {
    match s
    case Static(site, d) => InitDef(d, Object(StaticObject(site)), LoadEnv(s, env), mem)
    case _ => LoadStmt(s, env, mem)
  }

  function LoadStmt(s: Stmt, env: Env, mem: Memory): Option<Memory>
    decreases s, 1
  {
    match s
    case If(_, yes, no) =>
      (match LoadStmts(yes, env, mem)
       case None => None
       case Some(m) => LoadStmts(no, env, m))
    case While(_, body) => LoadStmts(body, env, mem)
    case Block(body) => LoadStmts(body, env, mem)
    case _ => Some(mem)
  }

  function LoadItem(item: Item, m: Machine): Option<Machine> {
    match item
    case Struct(_) => Some(m)
    case Global(d) =>
      var env := Bind(m.env, GlobalObject(d.x), d);
      (match InitDef(d, Object(GlobalObject(d.x)), env, m.mem)
       case None => None
       case Some(mem) => Some(Machine(env, m.fns, mem)))
    case Function(f, params, body) =>
      match LoadStmts(body, Without(m.env, params), m.mem)
      case None => None
      case Some(mem) => Some(Machine(m.env, m.fns[f := Closure(params, body, m.env)], mem))
  }

  function Load(p: Program, m: Machine): Option<Machine> {
    if p == [] then Some(m) else
    match LoadItem(p[0], m)
    case None => None
    case Some(m1) => Load(p[1..], m1)
  }
}
