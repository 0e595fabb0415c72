/**
  The initial contents of the rewritten program's objects: copy k of an initialiser names only what belongs to stack k,
  so every stack starts from the source program's initial memory.
*/
module Loading {
  import opened Wrappers
  import opened CLang
  import opened Globaliser
  import opened Lexical
  import opened Preservation
  import ScopeProof

  // ---------------------------------------------------------------- initialisers

  lemma InitRefMirrors(x: string, scope: Scope, env: Env, env': Env, k: nat, pl: Placement)
    requires NameMirrors(x, scope, env, env', pl, false)
    ensures LocateRef(InitRef(scope, x, k), env', map[], 0) == MapSome(LocateRef(Plain(Src(x)), env, map[], 0), k, pl)
  {
  }

  /** The copy for stack k has the value that stack k sees in the source's initialiser. */
  lemma {:induction false} InitMirrors(e: Expr, scope: Scope, env: Env, env': Env, k: nat, pl: Placement,
                                       names: set<string>)
    requires Uses(e, names) && EnvMirrors(scope, env, env', pl, false)
    ensures Locate(ResolveInit(e, scope, k), env', map[], 0) == MapSome(Locate(e, env, map[], 0), k, pl)
    ensures Eval(ResolveInit(e, scope, k), env', map[], 0) == MapValue(Eval(e, env, map[], 0), k, pl)
  {
    match e
    case Num(_) =>
    case Id(r) => InitRefMirrors(r.name.x, scope, env, env', k, pl);
    case Deref(a) => InitMirrors(a, scope, env, env', k, pl, names);
    case Addr(a) => InitMirrors(a, scope, env, env', k, pl, names);
    case Binary(op, a, b) =>
      InitMirrors(a, scope, env, env', k, pl, names);
      InitMirrors(b, scope, env, env', k, pl, names);
      var v, w := Eval(a, env, map[], 0), Eval(b, env, map[], 0);
      if v.Some? && w.Some? {
        ApplyMirrors(op, v.value, w.value, k, pl);
      }
  }

  /** An initialiser of an ignored variable that names no rewritten variable is the same for all stacks. */
  predicate NamesBound(e: Expr, scope: Scope) {
    exists x :: x in scope && x in NamesOf(e) && scope[x].Bound?
  }

  lemma {:induction false} SameForAll(e: Expr, scope: Scope, j: nat, k: nat)
    requires !NamesBound(e, scope)
    ensures ResolveInit(e, scope, j) == ResolveInit(e, scope, k)
  {
    match e
    case Num(_) =>
    case Id(r) =>
    case Deref(a) => SameForAll(a, scope, j, k);
    case Addr(a) => SameForAll(a, scope, j, k);
    case Binary(_, a, b) =>
      SameForAll(a, scope, j, k);
      SameForAll(b, scope, j, k);
  }

  ghost predicate InitAgree(init: Option<Expr>, init': Option<Expr>, env: Env, env': Env, k: nat, pl: Placement) {
    && init'.Some? == init.Some?
    && (init.Some? ==> Eval(init'.value, env', map[], 0) == MapValue(Eval(init.value, env, map[], 0), k, pl))
  }

  ghost predicate MemoriesMirror(m: Option<Memory>, m': Option<Memory>, k: nat, pl: Placement) {
    m'.Some? == m.Some? && (m.Some? ==> Mirrors(m.value, m'.value, k, pl))
  }

  lemma InitOneMirrors(l: Loc, init: Option<Expr>, init': Option<Expr>, env: Env, env': Env, m: Memory, m': Memory,
                       k: nat, pl: Placement)
    requires InitAgree(init, init', env, env', k, pl) && Mirrors(m, m', k, pl)
    ensures MemoriesMirror(InitOne(l, init, env, m), InitOne(MapLoc(l, k, pl), init', env', m'), k, pl)
  {
    assert MirrorsAt(m, m', k, pl, l);
    StoreMirrors(m, m', l, Int(0), k, pl);
    if init.Some? && Eval(init.value, env, map[], 0).Some? {
      StoreMirrors(m, m', l, Eval(init.value, env, map[], 0).value, k, pl);
    }
  }

  /** What lies outside slot k is nothing to it. */
  lemma OutsideMirrors(m: Memory, m': Memory, l: Loc, v: Val, k: nat, pl: Placement)
    requires Mirrors(m, m', k, pl) && !Touched(l, k, pl)
    ensures Mirrors(m, m'[l := v], k, pl)
  {
    var m1' := m'[l := v];
    forall a: Loc
      ensures MirrorsAt(m, m1', k, pl, a)
    {
      assert MirrorsAt(m, m', k, pl, a);
      assert Touched(MapLoc(a, k, pl), k, pl);
    }
  }

  /** The pointer arrays numbered below a hold their addresses. */
  ghost predicate CellsBelow(m: Memory, pl: Placement, a: nat) {
    forall n, j: nat :: n in pl.owner && n < a && j < NUM_STACKS ==>
      PtrCell(n, j) in m && m[PtrCell(n, j)] == Ptr(InstanceOf(Object(pl.owner[n]), j))
  }

  ghost predicate CellsFrom(m: Memory, n: nat, id: ObjectId, j: nat) {
    forall i: nat :: i < j ==> PtrCell(n, i) in m && m[PtrCell(n, i)] == Ptr(InstanceOf(Object(id), i))
  }

  function SlotLoc(d: VarDef, id: ObjectId, j: nat): Loc {
    if d.shape.Slots? then SlotOf(Object(id), j) else InstanceOf(Object(id), j)
  }

  function CopyOf(d: VarDef, j: nat): Option<Expr>
    requires !d.shape.Single? && j < NUM_STACKS && (d.shape.inits.Some? ==> |d.shape.inits.value| == NUM_STACKS)
  {
    if d.shape.inits.None? then None else Some(d.shape.inits.value[j])
  }

  /** The slots from j on: stack k's slot is written when its turn comes, and before and after it stays as it is. */
  lemma {:induction false} InitFromMirrors(init: Option<Expr>, d: VarDef, id: ObjectId, env: Env, env': Env, m: Memory,
                                           m': Memory, m0: Memory, k: nat, pl: Placement, j: nat, a: nat)
    requires !d.shape.Single? && (d.shape.inits.Some? ==> |d.shape.inits.value| == NUM_STACKS) && PlacedDef(id, d, pl)
    requires j <= NUM_STACKS && k < NUM_STACKS && (d.shape.Expanded? ==> d.shape.n == a)
    requires forall i :: 0 <= i < NUM_STACKS ==> InitAgree(init, CopyOf(d, i), env, env', i, pl)
    requires InitOne(Object(id), init, env, m0) == Some(m)
    requires if j <= k then Mirrors(m0, m', k, pl) else Mirrors(m, m', k, pl)
    requires CellsBelow(m', pl, a) && (d.shape.Expanded? ==> CellsFrom(m', a, id, j))
    ensures var r := InitFrom(d, Object(id), env', m', j);
            r.Some? && Mirrors(m, r.value, k, pl) && CellsBelow(r.value, pl, if d.shape.Expanded? then a + 1 else a)
    decreases NUM_STACKS - j
  {
    if j < NUM_STACKS {
      var l := SlotLoc(d, id, j);
      assert InitAgree(init, CopyOf(d, j), env, env', j, pl);
      var m1' := InitOne(l, CopyOf(d, j), env', m').value;
      if j == k {
        assert l == MapLoc(Object(id), k, pl);
        InitOneMirrors(Object(id), init, CopyOf(d, j), env, env', m0, m', k, pl);
      } else {
        assert m1' == m' || (l in m1' && m1' == m'[l := m1'[l]]);
        var m2 := if j < k then m0 else m;
        if m1' != m' {
          OutsideMirrors(m2, m', l, m1'[l], k, pl);
        }
      }
      var m2' := if d.shape.Slots? then m1' else m1'[PtrCell(a, j) := Ptr(InstanceOf(Object(id), j))];
      var m2 := if j < k then m0 else m;
      if d.shape.Expanded? {
        OutsideMirrors(m2, m1', PtrCell(a, j), Ptr(InstanceOf(Object(id), j)), k, pl);
      }
      InitFromMirrors(init, d, id, env, env', m, m2', m0, k, pl, j + 1, a);
    }
  }

  /** Loading a rewritten definition. */
  ghost predicate DefLoads(r: Option<Memory>, r': Option<Memory>, k: nat, pl: Placement, a: nat) {
    MemoriesMirror(r, r', k, pl) && (r'.Some? ==> CellsBelow(r'.value, pl, a))
  }

  lemma {:induction false} CopiesMirror(d: VarDef, form: Form, scope: Scope, env: Env, env': Env, pl: Placement,
                                        names: set<string>, i: nat)
    requires d.shape.Single? && (d.shape.init.Some? ==> Uses(d.shape.init.value, names))
    requires EnvMirrors(scope, env, env', pl, false) && i < NUM_STACKS
    ensures var d' := ResolveDef(d, form, scope);
            && !d'.shape.Single? && (d'.shape.inits.Some? ==> |d'.shape.inits.value| == NUM_STACKS)
            && InitAgree(d.shape.init, CopyOf(d', i), env, env', i, pl)
  {
    if d.shape.init.Some? {
      InitMirrors(d.shape.init.value, scope, env, env', i, pl, names);
    }
  }

  lemma {:induction false} DefMirrors(d: VarDef, form: Form, id: ObjectId, scope: Scope, env: Env, env': Env,
                                      m: Memory, m': Memory, k: nat,
                   pl: Placement, names: set<string>, a: nat)
    requires d.shape.Single? && (d.shape.init.Some? ==> Uses(d.shape.init.value, names)) && k < NUM_STACKS
    requires EnvMirrors(scope, env, env', pl, false) && PlacedDef(id, ResolveDef(d, form, scope), pl)
    requires Mirrors(m, m', k, pl) && CellsBelow(m', pl, a) && (form.New? ==> form.n == a)
    ensures DefLoads(InitDef(d, Object(id), env, m), InitDef(ResolveDef(d, form, scope), Object(id), env', m'), k, pl,
                     if form.New? then a + 1 else a)
  {
    var d' := ResolveDef(d, form, scope);
    forall i: nat | i < NUM_STACKS
      ensures !d'.shape.Single? && (d'.shape.inits.Some? ==> |d'.shape.inits.value| == NUM_STACKS)
      ensures InitAgree(d.shape.init, CopyOf(d', i), env, env', i, pl)
    {
      CopiesMirror(d, form, scope, env, env', pl, names, i);
    }
    match InitOne(Object(id), d.shape.init, env, m)
    case Some(m1) => InitFromMirrors(d.shape.init, d', id, env, env', m1, m', m, k, pl, 0, a);
    case None =>
      assert InitAgree(d.shape.init, CopyOf(d', 0), env, env', 0, pl);
      assert InitOne(SlotLoc(d', id, 0), CopyOf(d', 0), env', m').None?;
  }

  // ---------------------------------------------------------------- blocks

  lemma {:induction false} WithoutIs(env: Env, xs: seq<string>, x: Name)
    ensures x in Without(env, xs) <==> x in env && !(x.Src? && x.x in xs)
    ensures x in Without(env, xs) ==> Without(env, xs)[x] == env[x]
    decreases xs
  {
    if xs != [] {
      WithoutIs(env - {Src(xs[0])}, xs[1..], x);
    }
  }

  /** Automatic variables hide what had their names. */
  lemma {:induction false} WithoutMirrors(xs: seq<string>, scope: Scope, env: Env, env': Env, pl: Placement)
    requires EnvMirrors(scope, env, env', pl, false)
    ensures EnvMirrors(Locals(scope, xs), Without(env, xs), Without(env', xs), pl, false)
  {
    var scope1, env1, env1' := Locals(scope, xs), Without(env, xs), Without(env', xs);
    forall y: string
      ensures NameMirrors(y, scope1, env1, env1', pl, false)
    {
      assert NameMirrors(y, scope, env, env', pl, false);
      ScopeProof.LocalsAre(scope, xs, y);
      WithoutIs(env, xs, Src(y));
      WithoutIs(env', xs, Src(y));
      WithoutIs(env', xs, OldArray(y));
      WithoutIs(env', xs, Family(y));
      if y in scope && scope[y].Bound? && scope[y].form.New? {
        WithoutIs(env', xs, PtrArray(y, scope[y].form.n));
      }
    }
  }

  lemma {:induction false} LoadStmtsMirror(b: Stmts, scope: Scope, lay: Layout, full: bool, cmds: Commands,
                                           fns: set<string>, env: Env, env': Env, m: Memory, m': Memory, k: nat,
                                           pl: Placement, q: (Stmts, Layout))
    requires SupportedStmts(b, scope, lay, cmds, fns, full) && k < NUM_STACKS
    requires q == ResolveStmts(b, scope, lay, cmds) && PlacedStmts(q.0, pl)
    requires EnvMirrors(scope, env, env', pl, false) && Mirrors(m, m', k, pl) && CellsBelow(m', pl, lay.arrays)
    ensures DefLoads(LoadStmts(b, env, m), LoadStmts(q.0, env', m'), k, pl, q.1.arrays)
    decreases b, 1
  {
    match b
    case Done =>
    case Then(s, rest) =>
      var (s', scope1, lay1) := ResolveStep(s, scope, lay, cmds);
      LoadStepMirrors(s, scope, lay, full, cmds, fns, env, env', m, m', k, pl, s');
      var r, r' := LoadStep(s, env, m), LoadStep(s', env', m');
      if r.Some? {
        LoadStmtsMirror(rest, scope1, lay1, full || s.Static?, cmds, fns, LoadEnv(s, env), LoadEnv(s', env'), r.value,
                        r'.value, k, pl, (q.0.rest, q.1));
      }
  }

  lemma {:induction false} LoadStepMirrors(s: Stmt, scope: Scope, lay: Layout, full: bool, cmds: Commands,
                                           fns: set<string>, env: Env, env': Env, m: Memory, m': Memory, k: nat,
                                           pl: Placement, s': Stmt)
    requires SupportedStep(s, scope, lay, cmds, fns, full) && k < NUM_STACKS
    requires s' == ResolveStep(s, scope, lay, cmds).0 && PlacedStmt(s', pl)
    requires EnvMirrors(scope, env, env', pl, false) && Mirrors(m, m', k, pl) && CellsBelow(m', pl, lay.arrays)
    ensures DefLoads(LoadStep(s, env, m), LoadStep(s', env', m'), k, pl, ResolveStep(s, scope, lay, cmds).2.arrays)
    ensures EnvMirrors(ResolveStep(s, scope, lay, cmds).1, LoadEnv(s, env), LoadEnv(s', env'), pl, false)
    decreases s, 2
  {
    match s
    case Autos(defs) =>
      ScopeProof.AutosBind(defs, scope);
      AutosKeepNames(defs, scope);
      WithoutMirrors(AutoNames(defs), scope, env, env', pl);
    case Static(site, d) =>
      var (lay1, form) := Declare(lay, cmds, d);
      var scope1 := scope[d.x := Bound(StaticObject(site), form)];
      BindMirrors(d, StaticObject(site), form, scope, env, env', pl, false);
      DefMirrors(d, form, StaticObject(site), scope1, LoadEnv(s, env), LoadEnv(s', env'), m, m', k, pl,
                 scope.Keys + {d.x}, lay.arrays);
    case _ => LoadStmtMirrors(s, scope, lay, cmds, fns, env, env', m, m', k, pl, s');
  }

  lemma {:induction false} AutosKeepNames(defs: seq<AutoVar>, scope: Scope)
    ensures AutoNames(ResolveAutos(defs, scope).0) == AutoNames(defs)
    decreases defs
  {
    if defs != [] {
      var defs', scope1 := ResolveAutos(defs, scope).0, scope[defs[0].x := Local];
      AutosKeepNames(defs[1..], scope1);
      assert defs'[1..] == ResolveAutos(defs[1..], scope1).0;
      assert AutoNames(defs) == [defs[0].x] + AutoNames(defs[1..]);
      assert AutoNames(defs') == [defs[0].x] + AutoNames(defs'[1..]);
    }
  }

  lemma {:induction false} LoadStmtMirrors(s: Stmt, scope: Scope, lay: Layout, cmds: Commands, fns: set<string>,
                                           env: Env, env': Env, m: Memory, m': Memory, k: nat, pl: Placement, s': Stmt)
    requires Supported(s, scope, lay, cmds, fns) && k < NUM_STACKS && !s.Autos? && !s.Static?
    requires s' == Resolve(s, scope, lay, cmds).0 && PlacedStmt(s', pl)
    requires EnvMirrors(scope, env, env', pl, false) && Mirrors(m, m', k, pl) && CellsBelow(m', pl, lay.arrays)
    ensures DefLoads(LoadStmt(s, env, m), LoadStmt(s', env', m'), k, pl, Resolve(s, scope, lay, cmds).1.arrays)
    decreases s, 1
  {
    match s
    case If(_, yes, no) =>
      var q := ResolveStmts(yes, scope, lay, cmds);
      LoadStmtsMirror(yes, scope, lay, false, cmds, fns, env, env', m, m', k, pl, q);
      var r, r' := LoadStmts(yes, env, m), LoadStmts(q.0, env', m');
      if r.Some? {
        LoadStmtsMirror(no, scope, q.1, false, cmds, fns, env, env', r.value, r'.value, k, pl,
                        ResolveStmts(no, scope, q.1, cmds));
      }
    case While(_, body) =>
      LoadStmtsMirror(body, scope, lay, false, cmds, fns, env, env', m, m', k, pl, ResolveStmts(body, scope, lay, cmds));
    case Block(body) =>
      LoadStmtsMirror(body, scope, lay, false, cmds, fns, env, env', m, m', k, pl, ResolveStmts(body, scope, lay, cmds));
    case _ =>
  }

  // ---------------------------------------------------------------- the file

  /** At file scope nothing is local, and only functions have functions' names. */
  ghost predicate TopScope(scope: Scope, fns: set<string>) {
    forall x :: x in scope ==> !scope[x].Local? && (x in fns ==> scope[x].FunctionName?)
  }

  lemma LiveOrNot(scope: Scope, fns: set<string>, env: Env, env': Env, pl: Placement)
    requires TopScope(scope, fns) && EnvMirrors(scope, env, env', pl, false)
    ensures EnvMirrors(scope, env, env', pl, true)
  {
    forall x: string
      ensures NameMirrors(x, scope, env, env', pl, true)
    {
      assert NameMirrors(x, scope, env, env', pl, false);
    }
  }

  predicate PlacedItem(item: Item, pl: Placement) {
    match item
    case Struct(_) => true
    case Global(d) => PlacedDef(GlobalObject(d.x), d, pl)
    case Function(_, _, body) => PlacedStmts(body, pl)
  }

  /** The initialiser of an ignored variable names no rewritten variable. */
  predicate ClosedItem(item: Item, scope: Scope, cmds: Commands) {
    item.Global? && !IsGlobal(cmds, item.d.x) && InitOf(item.d).Some? ==>
      !NamesBound(InitOf(item.d).value, scope[item.d.x := Shared(GlobalObject(item.d.x))])
  }

  function ScopesAfter(item: Item, scope: Scope, lay: Layout, scopes: map<string, (Scope, Layout)>)
    : map<string, (Scope, Layout)>
  {
    match item
    case Function(f, _, _) => scopes[f := (scope[f := FunctionName], First(lay, f, Kind(false, false, "")))]
    case _ => scopes
  }

  /** A source machine and a rewritten one, as stack c.k sees it. */
  ghost predicate MachinesMirror(m: Machine, m': Machine, scope: Scope, arrays: nat, c: Context) {
    && TopScope(scope, c.names) && EnvMirrors(scope, m.env, m'.env, c.pl, false)
    && Mirrors(m.mem, m'.mem, c.k, c.pl) && CellsBelow(m'.mem, c.pl, arrays)
    && c.source == m.fns && c.target == m'.fns && FunctionsMirror(c)
  }

  ghost predicate LoadsMirror(r: Option<Machine>, r': Option<Machine>, scope: Scope, arrays: nat, c: Context,
                              scopes: map<string, (Scope, Layout)>) {
    && r'.Some? == r.Some?
    && (r.Some? ==>
         MachinesMirror(r.value, r'.value, scope, arrays,
                        c.(source := r.value.fns, target := r'.value.fns, scopes := scopes)))
  }

  lemma GlobalLoads(d: VarDef, scope: Scope, lay: Layout, m: Machine, m': Machine, c: Context)
    requires IsGlobal(c.cmds, d.x) && SupportedItem(Global(d), scope, lay, c.cmds, c.names) && c.k < NUM_STACKS
    requires PlacedItem(ResolveItem(Global(d), scope, lay, c.cmds).0, c.pl)
    requires MachinesMirror(m, m', scope, lay.arrays, c)
    ensures var (item', scope1, lay1) := ResolveItem(Global(d), scope, lay, c.cmds);
            LoadsMirror(LoadItem(Global(d), m), LoadItem(item', m'), scope1, lay1.arrays, c, c.scopes)
  {
    var (lay1, form) := Declare(lay, c.cmds, d);
    var id := GlobalObject(d.x);
    var scope1 := scope[d.x := Bound(id, form)];
    var d' := ResolveDef(d, form, scope1);
    GlobalFacts(d, scope, lay, form, c);
    hide EnvMirrors, Mirrors, CellsBelow, FunctionsMirror, InitDef, Bind, SupportedItem, PlacedItem, PlacedDef, LoadsMirror,
         LoadItem, DefLoads, TopScope;
    BindMirrors(d, id, form, scope, m.env, m'.env, c.pl, false);
    DefMirrors(d, form, id, scope1, Bind(m.env, id, d), Bind(m'.env, id, d'), m.mem, m'.mem, c.k, c.pl,
               scope.Keys + {d.x}, lay.arrays);
    DefinitionLoads(d, d', form, scope, lay.arrays, lay1.arrays, m, m', c);
  }

  lemma DefinitionLoads(d: VarDef, d': VarDef, form: Form, scope: Scope, arrays: nat, arrays1: nat, m: Machine,
                        m': Machine,
                        c: Context)
    requires d'.x == d.x && d.x !in c.names && MachinesMirror(m, m', scope, arrays, c)
    requires var id := GlobalObject(d.x);
             && EnvMirrors(scope[d.x := Bound(id, form)], Bind(m.env, id, d), Bind(m'.env, id, d'), c.pl, false)
             && DefLoads(InitDef(d, Object(id), Bind(m.env, id, d), m.mem),
                         InitDef(d', Object(id), Bind(m'.env, id, d'), m'.mem), c.k, c.pl, arrays1)
    ensures LoadsMirror(LoadItem(Global(d), m), LoadItem(Global(d'), m'), scope[d.x := Bound(GlobalObject(d.x), form)], arrays1,
                        c, c.scopes)
  {
    hide EnvMirrors, Mirrors, CellsBelow, FunctionsMirror, InitDef, Bind;
  }

  lemma GlobalFacts(d: VarDef, scope: Scope, lay: Layout, form: Form, c: Context)
    requires IsGlobal(c.cmds, d.x) && SupportedItem(Global(d), scope, lay, c.cmds, c.names)
    requires form == Declare(lay, c.cmds, d).1 && PlacedItem(ResolveItem(Global(d), scope, lay, c.cmds).0, c.pl)
    ensures d.shape.Single? && (d.shape.init.Some? ==> Uses(d.shape.init.value, scope.Keys + {d.x})) && d.x !in c.names
    ensures PlacedDef(GlobalObject(d.x), ResolveDef(d, form, scope[d.x := Bound(GlobalObject(d.x), form)]), c.pl)
    ensures form.New? ==> form.n == lay.arrays
    ensures Declare(lay, c.cmds, d).0.arrays == if form.New? then lay.arrays + 1 else lay.arrays
  {
  }

  lemma IgnoredLoads(d: VarDef, scope: Scope, lay: Layout, m: Machine, m': Machine, c: Context)
    requires !IsGlobal(c.cmds, d.x) && SupportedItem(Global(d), scope, lay, c.cmds, c.names)
    requires PlacedItem(ResolveItem(Global(d), scope, lay, c.cmds).0, c.pl)
    requires MachinesMirror(m, m', scope, lay.arrays, c) && (c.k == 0 || ClosedItem(Global(d), scope, c.cmds))
    ensures var (item', scope1, lay1) := ResolveItem(Global(d), scope, lay, c.cmds);
            LoadsMirror(LoadItem(Global(d), m), LoadItem(item', m'), scope1, lay1.arrays, c, c.scopes)
  {
    var id := GlobalObject(d.x);
    var scope1, d' := scope[d.x := Shared(id)], ResolveIgnored(d, scope[d.x := Shared(id)]);
    var env, env' := Bind(m.env, id, d), Bind(m'.env, id, d');
    forall x: string
      ensures NameMirrors(x, scope1, env, env', c.pl, false)
    {
      assert NameMirrors(x, scope, m.env, m'.env, c.pl, false);
    }
    if d.shape.init.Some? {
      var e := d.shape.init.value;
      InitMirrors(e, scope1, env, env', c.k, c.pl, scope.Keys + {d.x});
      if c.k != 0 {
        SameForAll(e, scope1, 0, c.k);
      }
    }
    InitOneMirrors(Object(id), d.shape.init, d'.shape.init, env, env', m.mem, m'.mem, c.k, c.pl);
    CellsElsewhere(m'.mem, Object(id), d'.shape.init, env', c.pl, lay.arrays);
  }

  lemma CellsElsewhere(m: Memory, l: Loc, init: Option<Expr>, env: Env, pl: Placement, a: nat)
    requires CellsBelow(m, pl, a) && !l.PtrCell?
    ensures InitOne(l, init, env, m).Some? ==> CellsBelow(InitOne(l, init, env, m).value, pl, a)
  {
  }

  lemma FunctionLoads(f: string, params: seq<string>, body: Stmts, scope: Scope, lay: Layout, m: Machine, m': Machine,
                      c: Context, item: Item)
    requires item == Function(f, params, body)
    requires SupportedItem(item, scope, lay, c.cmds, c.names) && c.k < NUM_STACKS
    requires PlacedItem(ResolveItem(item, scope, lay, c.cmds).0, c.pl)
    requires MachinesMirror(m, m', scope, lay.arrays, c)
    ensures var (item', scope1, lay1) := ResolveItem(item, scope, lay, c.cmds);
            LoadsMirror(LoadItem(item, m), LoadItem(item', m'), scope1, lay1.arrays, c,
                        ScopesAfter(item, scope, lay, c.scopes))
  {
    var scope1, layf := scope[f := FunctionName], First(lay, f, Kind(false, false, ""));
    var inner := Locals(scope1, params);
    var q := ResolveStmts(body, inner, layf, c.cmds);
    FunctionNameMirrors(f, scope, m.env, m'.env, c);
    hide EnvMirrors, Mirrors, CellsBelow, FunctionsMirror;
    WithoutMirrors(params, scope1, m.env, m'.env, c.pl);
    LoadStmtsMirror(body, inner, layf, false, c.cmds, c.names, Without(m.env, params), Without(m'.env, params), m.mem,
                    m'.mem, c.k, c.pl, q);
    ClosureAdded(f, Closure(params, body, m.env), Closure(params, q.0, m'.env), scope1, layf, c);
  }

  /** A function's name is no variable's. */
  lemma FunctionNameMirrors(f: string, scope: Scope, env: Env, env': Env, c: Context)
    requires f in c.names && TopScope(scope, c.names) && EnvMirrors(scope, env, env', c.pl, false)
    ensures EnvMirrors(scope[f := FunctionName], env, env', c.pl, false)
    ensures TopScope(scope[f := FunctionName], c.names)
  {
    var scope1 := scope[f := FunctionName];
    forall x: string
      ensures NameMirrors(x, scope1, env, env', c.pl, false)
    {
      assert NameMirrors(x, scope, env, env', c.pl, false);
    }
  }

  lemma {:induction false} ClosureAdded(f: string, cl: Closure, cl': Closure, scope: Scope, lay: Layout, c: Context)
    requires FunctionsMirror(c) && TopScope(scope, c.names) && EnvMirrors(scope, cl.env, cl'.env, c.pl, false)
    requires cl'.params == cl.params && cl'.body == ResolveStmts(cl.body, Locals(scope, cl.params), lay, c.cmds).0
    requires SupportedStmts(cl.body, Locals(scope, cl.params), lay, c.cmds, c.names, false)
    requires PlacedStmts(cl'.body, c.pl)
    ensures FunctionsMirror(c.(source := c.source[f := cl], target := c.target[f := cl'],
                               scopes := c.scopes[f := (scope, lay)]))
  {
    LiveOrNot(scope, c.names, cl.env, cl'.env, c.pl);
    hide EnvMirrors, SupportedStmts, PlacedStmts, ResolveStmts, Locals, TopScope, FunctionsMirror;
    FunctionsGrow(f, cl, cl', scope, lay, c);
  }

  lemma FunctionsGrow(f: string, cl: Closure, cl': Closure, scope: Scope, lay: Layout, c: Context)
    requires FunctionsMirror(c)
    requires var c1 := c.(source := map[f := cl], target := map[f := cl'], scopes := map[f := (scope, lay)]);
             ClosureMirrors(f, c1)
    ensures FunctionsMirror(c.(source := c.source[f := cl], target := c.target[f := cl'],
                               scopes := c.scopes[f := (scope, lay)]))
  {
    hide ClosureMirrors;
    var c0 := c.(source := map[f := cl], target := map[f := cl'], scopes := map[f := (scope, lay)]);
    var c1 := c.(source := c.source[f := cl], target := c.target[f := cl'], scopes := c.scopes[f := (scope, lay)]);
    forall g | g in c1.source
      ensures ClosureMirrors(g, c1)
    {
      SameClosure(g, if g == f then c0 else c, c1);
    }
  }

  lemma SameClosure(g: string, c: Context, c1: Context)
    requires g in c.source && g in c.target && g in c.scopes && ClosureMirrors(g, c)
    requires g in c1.source && g in c1.target && g in c1.scopes
    requires c1.source[g] == c.source[g] && c1.target[g] == c.target[g] && c1.scopes[g] == c.scopes[g]
    requires c1.cmds == c.cmds && c1.names == c.names && c1.pl == c.pl
    ensures ClosureMirrors(g, c1)
  {
    hide EnvMirrors, SupportedStmts, PlacedStmts, ResolveStmts, Locals;
  }

  /** What is loaded, item by item. */
  lemma ItemLoads(item: Item, scope: Scope, lay: Layout, m: Machine, m': Machine, c: Context)
    requires SupportedItem(item, scope, lay, c.cmds, c.names) && c.k < NUM_STACKS
    requires PlacedItem(ResolveItem(item, scope, lay, c.cmds).0, c.pl)
    requires MachinesMirror(m, m', scope, lay.arrays, c) && (c.k == 0 || ClosedItem(item, scope, c.cmds))
    ensures var (item', scope1, lay1) := ResolveItem(item, scope, lay, c.cmds);
            LoadsMirror(LoadItem(item, m), LoadItem(item', m'), scope1, lay1.arrays, c,
                        ScopesAfter(item, scope, lay, c.scopes))
  {
    match item
    case Struct(_) =>
    case Global(d) =>
      if IsGlobal(c.cmds, d.x) {
        GlobalLoads(d, scope, lay, m, m', c);
      } else {
        IgnoredLoads(d, scope, lay, m, m', c);
      }
    case Function(f, params, body) => FunctionLoads(f, params, body, scope, lay, m, m', c, item);
  }

  // ---------------------------------------------------------------- programs

  predicate ClosedItems(p: Program, scope: Scope, lay: Layout, cmds: Commands)
    decreases p
  {
    p == [] ||
    (&& ClosedItem(p[0], scope, cmds)
     && var (_, scope1, lay1) := ResolveItem(p[0], scope, lay, cmds);
        ClosedItems(p[1..], scope1, lay1, cmds))
  }

  function ScopesOf(p: Program, scope: Scope, lay: Layout, cmds: Commands, scopes: map<string, (Scope, Layout)>)
    : map<string, (Scope, Layout)>
    decreases p
  {
    if p == [] then scopes else
    var (_, scope1, lay1) := ResolveItem(p[0], scope, lay, cmds);
    ScopesOf(p[1..], scope1, lay1, cmds, ScopesAfter(p[0], scope, lay, scopes))
  }

  /** Scope and layout at the end of the file. */
  function EndOf(p: Program, scope: Scope, lay: Layout, cmds: Commands): (Scope, Layout)
    decreases p
  {
    if p == [] then (scope, lay) else
    var (_, scope1, lay1) := ResolveItem(p[0], scope, lay, cmds);
    EndOf(p[1..], scope1, lay1, cmds)
  }

  predicate PlacedItems(p: Program, pl: Placement) {
    forall i :: 0 <= i < |p| ==> PlacedItem(p[i], pl)
  }

  lemma {:induction false} ItemsLoad(p: Program, scope: Scope, lay: Layout, m: Machine, m': Machine, c: Context,
                                     p': Program)
    requires SupportedItems(p, scope, lay, c.cmds, c.names) && c.k < NUM_STACKS
    requires p' == ResolveItems(p, scope, lay, c.cmds) && PlacedItems(p', c.pl)
    requires MachinesMirror(m, m', scope, lay.arrays, c) && (c.k == 0 || ClosedItems(p, scope, lay, c.cmds))
    ensures LoadsMirror(Load(p, m), Load(p', m'), EndOf(p, scope, lay, c.cmds).0, EndOf(p, scope, lay, c.cmds).1.arrays,
                        c, ScopesOf(p, scope, lay, c.cmds, c.scopes))
    decreases p
  {
    if p != [] {
      var (item', scope1, lay1) := ResolveItem(p[0], scope, lay, c.cmds);
      assert p'[0] == item' && p'[1..] == ResolveItems(p[1..], scope1, lay1, c.cmds);
      ItemLoads(p[0], scope, lay, m, m', c);
      var r, r' := LoadItem(p[0], m), LoadItem(item', m');
      if r.Some? {
        ItemsLoad(p[1..], scope1, lay1, r.value, r'.value,
                  c.(source := r.value.fns, target := r'.value.fns, scopes := ScopesAfter(p[0], scope, lay, c.scopes)),
                  p'[1..]);
      }
    }
  }
}
