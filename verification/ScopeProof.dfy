/** On supported programs the walk of the globaliser is lexical resolution. */
module ScopeProof {
  import opened Wrappers
  import opened CLang
  import opened Globaliser
  import opened Lexical

  // ---------------------------------------------------------------- what the tables know of the scope

  predicate HasForm(t: Tables, cmds: Commands, x: string, m: Option<Symbol>, form: Form) {
    && m.Some? && m.value.mangled == Some(MangledName(x, form)) && m.value.isArray == form.New?
    && (form.Old? ==> !Expands(t, cmds, x, m.value.isPointer, false))
  }

  predicate Knows(t: Tables, cmds: Commands, x: string, b: Binding) {
    match b
    case Local => x in t.locals
    case FunctionName => x !in t.locals && IsFunction(t, x)
    case Shared(_) => x !in t.locals && x !in t.statics && !IsGlobal(cmds, x)
    case Bound(id, form) =>
      && x !in t.locals && IsDeclared(t, x) && IsGlobal(cmds, x) && (id.StaticObject? <==> x in t.statics)
      && HasForm(t, cmds, x, Latest(Records(t, x)), form)
  }

  predicate SameFront(lay: Layout, t: Tables, x: string) {
    && (x in lay.front <==> x in t.symbols)
    && (x in t.symbols ==>
         var rs := t.symbols[x];
         && rs != []
         && if rs[0].isFunction then lay.front[x].tag == ""
            else rs[0].tag == lay.front[x].tag && rs[0].isPointer == lay.front[x].isPointer)
  }

  ghost predicate Follows(t: Tables, lay: Layout, cmds: Commands) {
    && lay.structs == t.structs && lay.arrays == t.arrays
    && forall x :: IsGlobal(cmds, x) ==> SameFront(lay, t, x)
  }

  /** Functions and variables do not share names. */
  ghost predicate FunctionsAre(t: Tables, fns: set<string>) {
    forall x :: Records(t, x) != [] ==> (IsFunction(t, x) <==> x in fns)
  }

  ghost predicate Inv(t: Tables, cmds: Commands, scope: Scope, lay: Layout, fns: set<string>) {
    && FunctionsAre(t, fns) && Follows(t, lay, cmds)
    && (forall x :: x in scope ==> Knows(t, cmds, x, scope[x]))
    && (forall x :: x in t.locals ==> x in scope && scope[x].Local?)
    && (forall x :: x in t.statics ==> x in scope && (scope[x].Local? || (scope[x].Bound? && scope[x].id.StaticObject?)))
  }

  // ---------------------------------------------------------------- expressions

  /** An identifier in scope is rewritten as its binding says, in code and in initialisers. */
  lemma {:induction false} LeafAgrees(t: Tables, cmds: Commands, scope: Scope, x: string, j: nat)
    requires x in scope && Knows(t, cmds, x, scope[x])
    ensures Leaf(t, cmds, x, false) == Some(RefOf(scope, x))
    ensures Leaf(t, cmds, x, true).Some?
    ensures Instantiate(Id(LeafRef(t, cmds, x, true)), j) == Id(InitRef(scope, x, j))
  {
  }

  lemma {:induction false} ExprAgrees(t: Tables, cmds: Commands, e: Expr, scope: Scope, names: set<string>)
    requires Uses(e, names)
    requires forall x :: x in NamesOf(e) ==> x in scope && Knows(t, cmds, x, scope[x])
    ensures HgrExpr(t, cmds, e, false) == ResolveExpr(e, scope) && !Fails(t, cmds, e, false)
  {
    match e
    case Num(_) =>
    case Id(r) => LeafAgrees(t, cmds, scope, r.name.x, 0);
    case Deref(a) => ExprAgrees(t, cmds, a, scope, names);
    case Addr(a) => ExprAgrees(t, cmds, a, scope, names);
    case Binary(_, a, b) =>
      ExprAgrees(t, cmds, a, scope, names);
      ExprAgrees(t, cmds, b, scope, names);
  }

  lemma {:induction false} InitAgrees(t: Tables, cmds: Commands, e: Expr, scope: Scope, names: set<string>, j: nat)
    requires Uses(e, names)
    requires forall x :: x in NamesOf(e) ==> x in scope && Knows(t, cmds, x, scope[x])
    ensures Instantiate(HgrExpr(t, cmds, e, true), j) == ResolveInit(e, scope, j) && !Fails(t, cmds, e, true)
  {
    match e
    case Num(_) =>
    case Id(r) => LeafAgrees(t, cmds, scope, r.name.x, j);
    case Deref(a) => InitAgrees(t, cmds, a, scope, names, j);
    case Addr(a) => InitAgrees(t, cmds, a, scope, names, j);
    case Binary(_, a, b) =>
      InitAgrees(t, cmds, a, scope, names, j);
      InitAgrees(t, cmds, b, scope, names, j);
  }

  lemma {:induction false} NamesUsed(e: Expr, names: set<string>)
    requires Uses(e, names)
    ensures NamesOf(e) <= names
  {
    match e
    case Num(_) =>
    case Id(r) =>
    case Deref(a) => NamesUsed(a, names);
    case Addr(a) => NamesUsed(a, names);
    case Binary(_, a, b) =>
      NamesUsed(a, names);
      NamesUsed(b, names);
  }

  lemma {:induction false} UseAgrees(t: Tables, cmds: Commands, e: Expr, scope: Scope, lay: Layout, fns: set<string>)
    requires Inv(t, cmds, scope, lay, fns) && Uses(e, scope.Keys)
    ensures HgrExpr(t, cmds, e, false) == ResolveExpr(e, scope) && Check(t, cmds, e, false) == t
  {
    NamesUsed(e, scope.Keys);
    ExprAgrees(t, cmds, e, scope, scope.Keys);
  }

  lemma {:induction false} UsesAgree(t: Tables, cmds: Commands, es: seq<Expr>, scope: Scope, lay: Layout,
                                     fns: set<string>)
    requires Inv(t, cmds, scope, lay, fns) && UsesAll(es, scope.Keys)
    ensures HgrExprs(t, cmds, es) == ResolveExprs(es, scope) && CheckAll(t, cmds, es) == t
    decreases es
  {
    if es != [] {
      UseAgrees(t, cmds, es[0], scope, lay, fns);
      UsesAgree(t, cmds, es[1..], scope, lay, fns);
    }
  }

  // ---------------------------------------------------------------- declarations of automatic variables

  /** The walk knows all the names before the first initialiser; without mentions of later names that is no matter. */
  lemma {:induction false} AutosAgree(t: Tables, cmds: Commands, defs: seq<AutoVar>, scope: Scope)
    requires SupportedAutos(defs, scope.Keys)
    requires forall x :: x in scope && x !in AutoNames(defs) ==> Knows(t, cmds, x, scope[x])
    requires forall x :: x in AutoNames(defs) ==> x in t.locals
    ensures HgrAutos(t, cmds, defs) == (t, ResolveAutos(defs, scope).0)
    decreases defs
  {
    if defs != [] {
      var scope1, rest := scope[defs[0].x := Local], AutoNames(defs[1..]);
      assert AutoNames(defs) == [defs[0].x] + rest;
      assert scope1.Keys == scope.Keys + {defs[0].x};
      if defs[0].init.Some? {
        var e := defs[0].init.value;
        NamesUsed(e, scope1.Keys);
        assert forall x :: x in NamesOf(e) ==> x in scope1 && x !in rest;
        ExprAgrees(t, cmds, e, scope1, scope1.Keys);
      }
      AutosAgree(t, cmds, defs[1..], scope1);
    }
  }

  lemma {:induction false} AutosBind(defs: seq<AutoVar>, scope: Scope)
    ensures ResolveAutos(defs, scope).1 == Locals(scope, AutoNames(defs))
    decreases defs
  {
    if defs != [] {
      assert AutoNames(defs)[1..] == AutoNames(defs[1..]);
      AutosBind(defs[1..], scope[defs[0].x := Local]);
    }
  }

  lemma {:induction false} LocalsAre(scope: Scope, xs: seq<string>, x: string)
    ensures x in xs ==> x in Locals(scope, xs) && Locals(scope, xs)[x] == Local
    ensures x !in xs ==> (x in Locals(scope, xs) <==> x in scope)
    ensures x !in xs && x in scope ==> Locals(scope, xs)[x] == scope[x]
    decreases xs
  {
    if xs != [] {
      LocalsAre(scope[xs[0] := Local], xs[1..], x);
    }
  }

  /** Automatic variables go on the list of locals and into the scope. */
  lemma {:induction false} LocalsKnown(t: Tables, cmds: Commands, scope: Scope, lay: Layout, fns: set<string>,
                                       xs: seq<string>)
    requires Inv(t, cmds, scope, lay, fns)
    ensures Inv(t.(locals := t.locals + xs), cmds, Locals(scope, xs), lay, fns)
  {
    var t1 := t.(locals := t.locals + xs);
    forall x
      ensures x in Locals(scope, xs) ==> Knows(t1, cmds, x, Locals(scope, xs)[x])
      ensures x in t1.locals ==> x in Locals(scope, xs) && Locals(scope, xs)[x].Local?
      ensures x in t1.statics ==> x in Locals(scope, xs) && (Locals(scope, xs)[x].Local? || (Locals(scope, xs)[x].Bound? && Locals(scope, xs)[x].id.StaticObject?))
    {
      LocalsAre(scope, xs, x);
    }
  }

  // ---------------------------------------------------------------- what a block leaves in the symbol table

  predicate GrownRecords(before: seq<Symbol>, after: seq<Symbol>) {
    && before <= after && Latest(after) == Latest(before)
    && (before != [] ==> after[|after| - 1].isFunction == before[|before| - 1].isFunction)
  }

  /** Records may be left behind, but none that anything in scope could see. */
  ghost predicate Grown(t: Tables, t': Tables, fns: set<string>) {
    && t'.structs == t.structs && t'.locals == t.locals && t'.statics == t.statics && t'.failed == t.failed
    && forall x :: x in t.symbols ==>
         && x in t'.symbols && GrownRecords(t.symbols[x], t'.symbols[x])
         && (x in fns || x in t.statics ==> t'.symbols[x] == t.symbols[x])
  }

  lemma GrownTransitive(t: Tables, t1: Tables, t2: Tables, fns: set<string>)
    requires Grown(t, t1, fns) && Grown(t1, t2, fns)
    ensures Grown(t, t2, fns)
  {
    forall x | x in t.symbols
      ensures x in t2.symbols && GrownRecords(t.symbols[x], t2.symbols[x])
      ensures x in fns || x in t.statics ==> t2.symbols[x] == t.symbols[x]
    {
      assert x in t1.symbols && x in t2.symbols;
      assert GrownRecords(t.symbols[x], t1.symbols[x]) && GrownRecords(t1.symbols[x], t2.symbols[x]);
    }
  }

  /** So what was known stays known. */
  lemma GrownKnows(t: Tables, t': Tables, cmds: Commands, fns: set<string>, scope: Scope, lay: Layout, lay': Layout)
    requires Inv(t, cmds, scope, lay, fns) && Grown(t, t', fns) && Follows(t', lay', cmds)
    requires FunctionsAre(t', fns)
    ensures Inv(t', cmds, scope, lay', fns)
  {
    forall x | x in scope
      ensures Knows(t', cmds, x, scope[x])
    {
      assert Knows(t, cmds, x, scope[x]);
      if x in t.symbols {
        assert GrownRecords(t.symbols[x], t'.symbols[x]);
      }
    }
  }

  lemma {:induction false} LatestOfPush(rs: seq<Symbol>, s: Symbol)
    ensures Latest(rs + [s]) == if s.mangled.Some? then Some(s) else Latest(rs)
  {
    assert (rs + [s])[..|rs|] == rs;
  }

  // ---------------------------------------------------------------- definitions

  /** The record of a declaration and the record of its rewriting. */
  function DeclaredSymbol(d: VarDef): Symbol {
    Symbol(false, d.kind.tag, d.kind.isPointer, false, None)
  }

  function MangledSymbol(d: VarDef, form: Form): Symbol {
    Symbol(false, "", d.kind.isPointer, form.New?, Some(MangledName(d.x, form)))
  }

  function Defined(t: Tables, d: VarDef, form: Form, isStatic: bool): Tables {
    var t1 := Push(Push(t, d.x, DeclaredSymbol(d)), d.x, MangledSymbol(d, form));
    t1.(statics := if isStatic then t.statics + [d.x] else t.statics,
        arrays := if form.New? then t.arrays + 1 else t.arrays)
  }

  lemma FormAgrees(t: Tables, cmds: Commands, d: VarDef, lay: Layout)
    requires Follows(t, lay, cmds) && IsGlobal(cmds, d.x)
    ensures var t1 := Push(t, d.x, DeclaredSymbol(d));
            (d.kind.isArray || Expands(t1, cmds, d.x, d.kind.isPointer, d.kind.isArray)) == Declare(lay, cmds, d).1.New?
  {
    assert SameFront(lay, t, d.x);
  }

  lemma DefinedRecords(t: Tables, d: VarDef, form: Form, isStatic: bool)
    ensures Defined(t, d, form, isStatic).symbols
         == t.symbols[d.x := Records(t, d.x) + [DeclaredSymbol(d), MangledSymbol(d, form)]]
    ensures Latest(Records(t, d.x) + [DeclaredSymbol(d), MangledSymbol(d, form)]) == Some(MangledSymbol(d, form))
  {
    var rs := Records(t, d.x);
    assert rs + [DeclaredSymbol(d)] + [MangledSymbol(d, form)] == rs + [DeclaredSymbol(d), MangledSymbol(d, form)];
    LatestOfPush(rs + [DeclaredSymbol(d)], MangledSymbol(d, form));
  }

  lemma DefinedFollows(t: Tables, cmds: Commands, d: VarDef, isStatic: bool, lay: Layout)
    requires Follows(t, lay, cmds) && IsGlobal(cmds, d.x)
    ensures Follows(Defined(t, d, Declare(lay, cmds, d).1, isStatic), Declare(lay, cmds, d).0, cmds)
  {
    var (lay1, form) := Declare(lay, cmds, d);
    DefinedRecords(t, d, form, isStatic);
    assert SameFront(lay, t, d.x);
    forall x | IsGlobal(cmds, x)
      ensures SameFront(lay1, Defined(t, d, form, isStatic), x)
    {
      assert SameFront(lay, t, x);
    }
  }

  lemma DefinedKnown(t: Tables, cmds: Commands, d: VarDef, isStatic: bool, lay: Layout, id: ObjectId)
    requires Follows(t, lay, cmds) && IsGlobal(cmds, d.x)
    requires d.x !in t.locals && d.x !in t.statics && id.StaticObject? == isStatic
    ensures var form := Declare(lay, cmds, d).1; Knows(Defined(t, d, form, isStatic), cmds, d.x, Bound(id, form))
  {
    var form := Declare(lay, cmds, d).1;
    DefinedRecords(t, d, form, isStatic);
    assert SameFront(lay, t, d.x);
  }

  lemma OthersKnown(t: Tables, t1: Tables, cmds: Commands, x: string, b: Binding)
    requires Knows(t, cmds, x, b) && t1.structs == t.structs && t1.locals == t.locals
    requires Records(t1, x) == Records(t, x) && (x in t1.statics <==> x in t.statics)
    ensures Knows(t1, cmds, x, b)
  {
  }

  lemma DefinedInv(t: Tables, cmds: Commands, d: VarDef, isStatic: bool, scope: Scope, lay: Layout, fns: set<string>,
                   id: ObjectId)
    requires Inv(t, cmds, scope, lay, fns)
    requires IsGlobal(cmds, d.x) && d.x !in t.locals && d.x !in t.statics && d.x !in fns
    requires id.StaticObject? == isStatic
    ensures var (lay1, form) := Declare(lay, cmds, d);
            Inv(Defined(t, d, form, isStatic), cmds, scope[d.x := Bound(id, form)], lay1, fns)
  {
    var (lay1, form) := Declare(lay, cmds, d);
    var t1, scope1 := Defined(t, d, form, isStatic), scope[d.x := Bound(id, form)];
    hide Knows, Follows, Latest;
    DefinedFollows(t, cmds, d, isStatic, lay);
    DefinedKnown(t, cmds, d, isStatic, lay, id);
    DefinedRecords(t, d, form, isStatic);
    hide Declare;
    forall x | x in scope && x != d.x
      ensures Knows(t1, cmds, x, scope[x])
    {
      OthersKnown(t, t1, cmds, x, scope[x]);
    }
    forall x
      ensures Records(t1, x) != [] ==> (IsFunction(t1, x) <==> x in fns)
    {
      assert Records(t, x) != [] ==> (IsFunction(t, x) <==> x in fns);
      assert x != d.x ==> Records(t1, x) == Records(t, x);
    }
  }

  /** The initialiser of an array with slots sees the array; that of instances does not, and must not need to. */
  lemma {:induction false} CopiesAgree(t: Tables, cmds: Commands, d: VarDef, form: Form, scope: Scope,
                                       names: set<string>)
    requires d.shape.Single? && (d.shape.init.Some? ==> Uses(d.shape.init.value, names))
    requires d.shape.init.Some? ==>
               forall x :: x in NamesOf(d.shape.init.value) ==> x in scope && Knows(t, cmds, x, scope[x])
    ensures CheckInit(t, cmds, InitOf(d), true) == t
    ensures d.(shape := if form.Old? then Slots(Copies(t, cmds, InitOf(d))) else Expanded(Copies(t, cmds, InitOf(d)), form.n))
         == ResolveDef(d, form, scope)
  {
    if d.shape.init.Some? {
      var e := d.shape.init.value;
      var walked := HgrExpr(t, cmds, e, true);
      forall j: nat
        ensures Instantiate(walked, j) == ResolveInit(e, scope, j) && !Fails(t, cmds, e, true)
      {
        InitAgrees(t, cmds, e, scope, names, j);
      }
      assert seq(NUM_STACKS, j requires 0 <= j => Instantiate(walked, j))
          == seq(NUM_STACKS, j requires 0 <= j => ResolveInit(e, scope, j));
      assert !Fails(t, cmds, e, true) by {
        InitAgrees(t, cmds, e, scope, names, 0);
      }
    }
  }

  /** The tables when the initialiser of a new-style definition is walked. */
  function Declared(t: Tables, d: VarDef, isStatic: bool): Tables {
    var t1 := Push(t, d.x, DeclaredSymbol(d));
    if isStatic then t1.(statics := t1.statics + [d.x]) else t1
  }

  lemma OldAgrees(t: Tables, t2: Tables, cmds: Commands, d: VarDef, isStatic: bool, scope: Scope, lay: Layout,
                  fns: set<string>)
    requires t2 == Defined(t, d, Old, isStatic) && Inv(t2, cmds, scope, lay, fns)
    requires d.x in scope && d.shape.Single? && (d.shape.init.Some? ==> Uses(d.shape.init.value, scope.Keys))
    ensures OldDefinition(Declared(t, d, isStatic), cmds, d) == (t2, ResolveDef(d, Old, scope))
  {
    if d.shape.init.Some? {
      NamesUsed(d.shape.init.value, scope.Keys);
    }
    CopiesAgree(t2, cmds, d, Old, scope, scope.Keys);
  }

  /** Which instances an initialiser refers to is told by the name, not by the number of the pointer array. */
  lemma {:induction false} SameInstances(e: Expr, scope: Scope, x: string, id: ObjectId, m: nat, n: nat, j: nat)
    ensures ResolveInit(e, scope[x := Bound(id, New(m))], j) == ResolveInit(e, scope[x := Bound(id, New(n))], j)
  {
    match e
    case Num(_) =>
    case Id(_) =>
    case Deref(a) => SameInstances(a, scope, x, id, m, n, j);
    case Addr(a) => SameInstances(a, scope, x, id, m, n, j);
    case Binary(_, a, b) =>
      SameInstances(a, scope, x, id, m, n, j);
      SameInstances(b, scope, x, id, m, n, j);
  }

  lemma NewAgrees(t: Tables, t2: Tables, cmds: Commands, d: VarDef, isStatic: bool, scope: Scope, id: ObjectId,
                  lay: Layout, fns: set<string>, n: nat)
    requires Inv(t, cmds, scope, lay, fns) && n == t.arrays && IsGlobal(cmds, d.x) && d.x !in t.locals
    requires SupportedDef(d, New(n), scope) && id.StaticObject? == isStatic && d.x !in t.statics
    requires t2 == Declared(t, d, isStatic)
    ensures NewDefinition(t2, cmds, d)
         == (Defined(t, d, New(n), isStatic), ResolveDef(d, New(n), scope[d.x := Bound(id, New(n))]))
  {
    var m := if HasInstances(scope, d.x) then scope[d.x].form.n else n;
    var scope0 := scope[d.x := Bound(id, New(m))];
    StillKnown(t, t2, cmds, d, isStatic, scope, id, lay, fns, m);
    assert scope0.Keys == scope.Keys + {d.x};
    if d.shape.init.Some? {
      SelfKnown(d.shape.init.value, d.x, scope);
    }
    SameDefinition(d, scope, id, m, n);
    hide Knows, Inv, Copies, Check, Fails, Uses, ResolveDef, NewDefinition, Defined, Declared;
    CopiesAgree(t2, cmds, d, New(n), scope0, scope0.Keys);
    NewFrom(t, t2, cmds, d, isStatic, n, ResolveDef(d, New(n), scope0));
  }

  lemma NewFrom(t: Tables, t2: Tables, cmds: Commands, d: VarDef, isStatic: bool, n: nat, d1: VarDef)
    requires t2 == Declared(t, d, isStatic) && n == t.arrays && CheckInit(t2, cmds, InitOf(d), true) == t2
    requires d1 == d.(shape := Expanded(Copies(t2, cmds, InitOf(d)), n))
    ensures NewDefinition(t2, cmds, d) == (Defined(t, d, New(n), isStatic), d1)
  {
    hide Copies;
  }

  lemma {:induction false} SelfKnown(e: Expr, x: string, scope: Scope)
    requires Uses(e, scope.Keys + {x}) && (Mentions(e, [x]) ==> HasInstances(scope, x))
    ensures forall y :: y in NamesOf(e) ==> y in scope || y == x
    ensures x in NamesOf(e) ==> HasInstances(scope, x)
  {
    NamesUsed(e, scope.Keys + {x});
    assert x in [x];
  }

  /** When a definition that gets instances is walked, what was known is known, of its own name what was known before. */
  lemma StillKnown(t: Tables, t2: Tables, cmds: Commands, d: VarDef, isStatic: bool, scope: Scope, id: ObjectId,
                   lay: Layout, fns: set<string>, m: nat)
    requires Inv(t, cmds, scope, lay, fns) && IsGlobal(cmds, d.x) && d.x !in t.locals && d.x !in t.statics
    requires id.StaticObject? == isStatic && t2 == Declared(t, d, isStatic)
    requires HasInstances(scope, d.x) ==> m == scope[d.x].form.n
    ensures forall x :: (if x == d.x then HasInstances(scope, d.x) else x in scope) ==>
              Knows(t2, cmds, x, scope[d.x := Bound(id, New(m))][x])
  {
    DeclaredTables(t, d, isStatic);
    forall x | if x == d.x then HasInstances(scope, d.x) else x in scope
      ensures Knows(t2, cmds, x, scope[d.x := Bound(id, New(m))][x])
    {
      assert Knows(t, cmds, x, scope[x]);
      hide Inv, Declared, Push, Latest;
      if x == d.x {
        LatestOfPush(Records(t, x), DeclaredSymbol(d));
        assert Records(t2, x) == Records(t, x) + [DeclaredSymbol(d)];
      } else {
        OthersKnown(t, t2, cmds, x, scope[x]);
      }
    }
  }

  lemma DeclaredTables(t: Tables, d: VarDef, isStatic: bool)
    ensures var t2 := Declared(t, d, isStatic);
            && t2.symbols == t.symbols[d.x := Records(t, d.x) + [DeclaredSymbol(d)]]
            && t2.structs == t.structs && t2.locals == t.locals
            && forall x :: x in t2.statics <==> x in t.statics || (isStatic && x == d.x)
  {
  }

  lemma SameDefinition(d: VarDef, scope: Scope, id: ObjectId, m: nat, n: nat)
    ensures ResolveDef(d, New(n), scope[d.x := Bound(id, New(m))]) == ResolveDef(d, New(n), scope[d.x := Bound(id, New(n))])
  {
    if InitOf(d).Some? {
      var e := InitOf(d).value;
      var scope0, scope1 := scope[d.x := Bound(id, New(m))], scope[d.x := Bound(id, New(n))];
      forall j: nat
        ensures ResolveInit(e, scope0, j) == ResolveInit(e, scope1, j)
      {
        SameInstances(e, scope, d.x, id, m, n, j);
      }
      assert seq(NUM_STACKS, j requires 0 <= j => ResolveInit(e, scope0, j))
          == seq(NUM_STACKS, j requires 0 <= j => ResolveInit(e, scope1, j));
    }
  }

  /** The walk's form and initialisers are those of the resolution. */
  lemma HandleAgrees(t: Tables, cmds: Commands, d: VarDef, isStatic: bool, scope: Scope, lay: Layout, fns: set<string>,
                     id: ObjectId)
    requires Inv(t, cmds, scope, lay, fns)
    requires IsGlobal(cmds, d.x) && d.x !in t.locals && d.x !in t.statics && d.x !in fns
    requires id.StaticObject? == isStatic && SupportedDef(d, Declare(lay, cmds, d).1, scope)
    ensures HandleGlobal(t, cmds, d, isStatic).0 == Defined(t, d, Declare(lay, cmds, d).1, isStatic)
    ensures HandleGlobal(t, cmds, d, isStatic).1
         == ResolveDef(d, Declare(lay, cmds, d).1, scope[d.x := Bound(id, Declare(lay, cmds, d).1)])
  {
    var (lay1, form) := Declare(lay, cmds, d);
    var scope1 := scope[d.x := Bound(id, form)];
    assert scope1.Keys == scope.Keys + {d.x};
    FormAgrees(t, cmds, d, lay);
    assert !IsFunction(t, d.x) by {
      assert Records(t, d.x) != [] ==> (IsFunction(t, d.x) <==> d.x in fns);
    }
    if form.Old? {
      DefinedInv(t, cmds, d, isStatic, scope, lay, fns, id);
      OldAgrees(t, Defined(t, d, form, isStatic), cmds, d, isStatic, scope1, lay1, fns);
    } else {
      NewAgrees(t, Declared(t, d, isStatic), cmds, d, isStatic, scope, id, lay, fns, form.n);
    }
  }

  // ---------------------------------------------------------------- leaving a block

  /** The tables once a block that is at its end has popped its locals and its static local. */
  function Left(t: Tables, numLocals: nat, m: nat): Tables {
    PopStatics(PopLocals(t, numLocals), m)
  }

  /** Under the record that will be popped is the one that the declaration left. */
  predicate Poppable(t: Tables) {
    && t.statics != []
    && var rs := Records(t, t.statics[|t.statics| - 1]);
       |rs| >= 2 && !rs[|rs| - 2].isFunction && !rs[|rs| - 1].isFunction
  }

  lemma LeftIs(t: Tables, n: nat)
    requires n <= |t.locals| && Poppable(t)
    ensures var x := t.statics[|t.statics| - 1];
            Left(t, n, 1) == t.(locals := t.locals[..|t.locals| - n], statics := t.statics[..|t.statics| - 1],
                                   symbols := t.symbols[x := Records(t, x)[..|Records(t, x)| - 1]])
  {
    var t1, x := PopLocals(t, n), t.statics[|t.statics| - 1];
    assert Records(t1, x) == Records(t, x);
    assert PopStatics(t1, 1) == PopStatics(Undefine(t1, x).(statics := t.statics[..|t.statics| - 1]), 0);
  }

  lemma {:induction false} LeftFollows(t: Tables, n: nat, m: nat, cmds: Commands, scope: Scope, lay: Layout,
                                       fns: set<string>)
    requires n <= |t.locals| && m <= 1 && (m == 1 ==> Poppable(t))
    requires Inv(t, cmds, scope, lay, fns)
    ensures Follows(Left(t, n, m), lay, cmds) && FunctionsAre(Left(t, n, m), fns)
    ensures HgrStmts(t, cmds, Done, n, m) == (Left(t, n, m), Done)
  {
    var t1 := Left(t, n, m);
    if m == 1 {
      LeftIs(t, n);
      var x := t.statics[|t.statics| - 1];
      assert Records(t1, x) == Records(t, x)[..|Records(t, x)| - 1];
      forall y
        ensures IsGlobal(cmds, y) ==> SameFront(lay, t1, y)
        ensures Records(t1, y) != [] ==> (IsFunction(t1, y) <==> y in fns)
      {
        assert IsGlobal(cmds, y) ==> SameFront(lay, t, y);
        assert y != x ==> Records(t1, y) == Records(t, y);
      }
    } else {
      forall y
        ensures IsGlobal(cmds, y) ==> SameFront(lay, t1, y)
        ensures Records(t1, y) != [] ==> (IsFunction(t1, y) <==> y in fns)
      {
        assert IsGlobal(cmds, y) ==> SameFront(lay, t, y);
        assert Records(t1, y) == Records(t, y);
      }
    }
  }

  /** What a statement leaves behind is still there when its block has ended. */
  lemma LeftGrown(t: Tables, t1: Tables, n: nat, m: nat, fns: set<string>)
    requires m <= 1 && n <= |t.locals| && (m == 1 ==> Poppable(t)) && Grown(t, t1, fns)
    ensures t1.locals == t.locals && (m == 1 ==> Poppable(t1))
    ensures Grown(Left(t, n, m), Left(t1, n, m), fns)
  {
    if m == 1 {
      var x := t.statics[|t.statics| - 1];
      assert x in t.symbols && t1.symbols[x] == t.symbols[x];
      LeftIs(t, n);
      LeftIs(t1, n);
    }
  }

  /** A static local leaves its first record. */
  lemma LeftOfStatic(t: Tables, d: VarDef, form: Form, n: nat, fns: set<string>)
    requires n <= |t.locals| && d.x !in fns && d.x !in t.statics && !IsFunction(t, d.x)
    ensures Defined(t, d, form, true).locals == t.locals && Poppable(Defined(t, d, form, true))
    ensures Grown(Left(t, n, 0), Left(Defined(t, d, form, true), n, 1), fns)
  {
    DefinedPoppable(t, d, form);
    StaticLeaves(t, d, form, n);
    GrownByOne(Left(t, n, 0), Left(Defined(t, d, form, true), n, 1), d.x, DeclaredSymbol(d), fns);
  }

  lemma GrownByOne(t: Tables, t1: Tables, x: string, s: Symbol, fns: set<string>)
    requires t1.symbols == t.symbols[x := Records(t, x) + [s]] && !s.isFunction && s.mangled.None?
    requires t1.structs == t.structs && t1.locals == t.locals && t1.statics == t.statics && t1.failed == t.failed
    requires x !in fns && x !in t.statics && !IsFunction(t, x)
    ensures Grown(t, t1, fns)
  {
    LatestOfPush(Records(t, x), s);
  }

  lemma StaticLeaves(t: Tables, d: VarDef, form: Form, n: nat)
    requires n <= |t.locals|
    ensures var t1 := Left(Defined(t, d, form, true), n, 1);
            && t1.symbols == t.symbols[d.x := Records(t, d.x) + [DeclaredSymbol(d)]] && t1.structs == t.structs
            && t1.locals == PopLocals(t, n).locals && t1.statics == t.statics && t1.failed == t.failed
  {
    var t1, rs := Defined(t, d, form, true), Records(t, d.x);
    DefinedPoppable(t, d, form);
    LeftIs(t1, n);
    MapTwice(t.symbols, d.x, t1.symbols[d.x], rs + [DeclaredSymbol(d)]);
  }

  lemma DefinedPoppable(t: Tables, d: VarDef, form: Form)
    ensures var t1, rs := Defined(t, d, form, true), Records(t, d.x);
            && Poppable(t1) && t1.statics == t.statics + [d.x] && t1.statics[..|t1.statics| - 1] == t.statics
            && t1.symbols == t.symbols[d.x := t1.symbols[d.x]]
            && Records(t1, d.x)[..|Records(t1, d.x)| - 1] == rs + [DeclaredSymbol(d)]
  {
    var t1, rs := Defined(t, d, form, true), Records(t, d.x);
    DefinedRecords(t, d, form, true);
    assert Records(t1, d.x) == rs + [DeclaredSymbol(d), MangledSymbol(d, form)];
    assert Records(t1, d.x)[..|rs| + 1] == rs + [DeclaredSymbol(d)];
  }

  lemma MapTwice<A, B>(m: map<A, B>, a: A, b: B, b': B)
    ensures m[a := b][a := b'] == m[a := b']
  {
  }

  // ---------------------------------------------------------------- statements

  ghost predicate Ends(t: Tables, t1: Tables, cmds: Commands, lay: Layout, fns: set<string>) {
    Grown(t, t1, fns) && Follows(t1, lay, cmds) && FunctionsAre(t1, fns)
  }

  lemma {:induction false} AutosWalked(t: Tables, cmds: Commands, defs: seq<AutoVar>, scope: Scope, lay: Layout,
                                       fns: set<string>)
    requires Inv(t, cmds, scope, lay, fns) && SupportedAutos(defs, scope.Keys)
    ensures var t1 := t.(locals := t.locals + AutoNames(defs));
            && HgrAutos(t1, cmds, defs) == (t1, ResolveAutos(defs, scope).0)
            && Inv(t1, cmds, ResolveAutos(defs, scope).1, lay, fns)
  {
    var xs := AutoNames(defs);
    var t1 := t.(locals := t.locals + xs);
    AutosBind(defs, scope);
    LocalsKnown(t, cmds, scope, lay, fns, xs);
    forall x | x in scope && x !in xs
      ensures Knows(t1, cmds, x, scope[x])
    {
      LocalsAre(scope, xs, x);
    }
    AutosAgree(t1, cmds, defs, scope);
  }

  lemma LeftOfAutos(t: Tables, t1: Tables, xs: seq<string>, n: nat, n1: nat, m: nat)
    requires n <= |t.locals| && (m == 1 ==> Poppable(t))
    requires t1 == t.(locals := t.locals + xs) && n1 == n + |xs|
    ensures n1 <= |t1.locals| && (m == 1 ==> Poppable(t1)) && Left(t1, n1, m) == Left(t, n, m)
  {
    assert t1.locals[..|t1.locals| - n1] == t.locals[..|t.locals| - n];
    assert PopLocals(t1, n1) == PopLocals(t, n);
  }

  /** One statement of a list is rewritten as the resolution says. */
  ghost predicate StepResolves(t: Tables, cmds: Commands, s: Stmt, scope: Scope, lay: Layout, fns: set<string>,
                               m: nat) {
    var (t1, s1, n1, m1) := HgrStep(t, cmds, s, m);
    var (s1', scope1, lay1) := ResolveStep(s, scope, lay, cmds);
    && s1 == s1' && Inv(t1, cmds, scope1, lay1, fns) && m1 == if s.Static? then 1 else m
  }

  /** With what it adds popped too, the end of the list undoes it. */
  ghost predicate StepUndone(t: Tables, cmds: Commands, s: Stmt, n: nat, fns: set<string>, m: nat)
    requires m <= 1 && n <= |t.locals| && (m == 1 ==> Poppable(t))
  {
    var (t1, s1, n1, m1) := HgrStep(t, cmds, s, m);
    n + n1 <= |t1.locals| && (m1 == 1 ==> Poppable(t1)) && Grown(Left(t, n, m), Left(t1, n + n1, m1), fns)
  }

  lemma {:induction false} StepAgrees(t: Tables, cmds: Commands, s: Stmt, n: nat, scope: Scope, lay: Layout,
                                      fns: set<string>, m: nat)
    requires Inv(t, cmds, scope, lay, fns) && SupportedStep(s, scope, lay, cmds, fns, m == 1)
    requires m <= 1 && n <= |t.locals| && (m == 1 ==> Poppable(t))
    ensures StepResolves(t, cmds, s, scope, lay, fns, m)
    ensures StepUndone(t, cmds, s, n, fns, m)
    decreases s, 2
  {
    hide Inv, Left, Poppable, Grown, StepResolves, StepUndone;
    match s
    case Autos(defs) =>
      AutosResolve(t, cmds, defs, scope, lay, fns, m);
      AutosWalked(t, cmds, defs, scope, lay, fns);
      AutosUndone(t, cmds, defs, n, fns, m);
    case Static(site, d) =>
      StaticResolves(t, cmds, site, d, scope, lay, fns);
      StaticUndone(t, cmds, site, d, n, scope, lay, fns);
    case _ =>
      StmtAgrees(t, cmds, s, scope, lay, fns);
      OtherStep(t, cmds, s, n, scope, lay, fns, m);
  }

  lemma {:induction false} AutosResolve(t: Tables, cmds: Commands, defs: seq<AutoVar>, scope: Scope, lay: Layout,
                                        fns: set<string>, m: nat)
    requires Inv(t, cmds, scope, lay, fns) && SupportedAutos(defs, scope.Keys)
    ensures StepResolves(t, cmds, Autos(defs), scope, lay, fns, m)
  {
    AutosWalked(t, cmds, defs, scope, lay, fns);
  }

  lemma {:induction false} AutosUndone(t: Tables, cmds: Commands, defs: seq<AutoVar>, n: nat, fns: set<string>, m: nat)
    requires var t1 := t.(locals := t.locals + AutoNames(defs)); HgrAutos(t1, cmds, defs).0 == t1
    requires m <= 1 && n <= |t.locals| && (m == 1 ==> Poppable(t))
    ensures StepUndone(t, cmds, Autos(defs), n, fns, m)
  {
    var t1 := t.(locals := t.locals + AutoNames(defs));
    LeftOfAutos(t, t1, AutoNames(defs), n, n + |defs|, m);
    GrownReflexive(Left(t, n, m), fns);
    assert HgrStep(t, cmds, Autos(defs), m).0 == t1 && HgrStep(t, cmds, Autos(defs), m).2 == |defs|;
  }

  lemma GrownReflexive(t: Tables, fns: set<string>)
    ensures Grown(t, t, fns)
  {
  }

  lemma {:induction false} StaticResolves(t: Tables, cmds: Commands, site: nat, d: VarDef, scope: Scope, lay: Layout,
                                          fns: set<string>)
    requires Inv(t, cmds, scope, lay, fns) && SupportedStep(Static(site, d), scope, lay, cmds, fns, false)
    ensures StepResolves(t, cmds, Static(site, d), scope, lay, fns, 0)
    ensures HgrStatic(t, cmds, d).0 == Defined(t, d, Declare(lay, cmds, d).1, true) && HgrStatic(t, cmds, d).2 == 1
    ensures d.x !in fns && d.x !in t.statics && !IsFunction(t, d.x)
  {
    assert Records(t, d.x) != [] ==> (IsFunction(t, d.x) <==> d.x in fns);
    assert d.x in scope ==> Knows(t, cmds, d.x, scope[d.x]);
    HandleAgrees(t, cmds, d, true, scope, lay, fns, StaticObject(site));
    DefinedInv(t, cmds, d, true, scope, lay, fns, StaticObject(site));
  }

  lemma {:induction false} StaticUndone(t: Tables, cmds: Commands, site: nat, d: VarDef, n: nat, scope: Scope,
                                        lay: Layout, fns: set<string>)
    requires Inv(t, cmds, scope, lay, fns) && SupportedStep(Static(site, d), scope, lay, cmds, fns, false)
    requires n <= |t.locals|
    ensures StepUndone(t, cmds, Static(site, d), n, fns, 0)
  {
    hide Inv, Left, Poppable, Grown, Defined, StepResolves, SupportedStep, Declare, HgrStatic;
    StaticResolves(t, cmds, site, d, scope, lay, fns);
    LeftOfStatic(t, d, Declare(lay, cmds, d).1, n, fns);
  }

  lemma {:induction false} OtherStep(t: Tables, cmds: Commands, s: Stmt, n: nat, scope: Scope, lay: Layout,
                                     fns: set<string>, m: nat)
    requires !s.Autos? && !s.Static? && Inv(t, cmds, scope, lay, fns)
    requires Hgr(t, cmds, s).1 == Resolve(s, scope, lay, cmds).0
    requires Ends(t, Hgr(t, cmds, s).0, cmds, Resolve(s, scope, lay, cmds).1, fns)
    requires m <= 1 && n <= |t.locals| && (m == 1 ==> Poppable(t))
    ensures StepResolves(t, cmds, s, scope, lay, fns, m)
    ensures StepUndone(t, cmds, s, n, fns, m)
  {
    hide Inv, Left, Poppable, Grown, Follows, FunctionsAre, Hgr, Resolve;
    var t1, lay1 := Hgr(t, cmds, s).0, Resolve(s, scope, lay, cmds).1;
    GrownKnows(t, t1, cmds, fns, scope, lay, lay1);
    LeftGrown(t, t1, n, m, fns);
  }

  /**
    The rest of a statement list is rewritten as lexical scoping says, and when it has ended the tables are those of
    the block's start but for records that nothing sees.
  */
  lemma {:induction false} StmtsAgree(start: Tables, t: Tables, cmds: Commands, b: Stmts, n: nat, scope: Scope,
                                      lay: Layout, fns: set<string>, m: nat, r: (Tables, Stmts), q: (Stmts, Layout))
    requires Inv(t, cmds, scope, lay, fns) && SupportedStmts(b, scope, lay, cmds, fns, m == 1)
    requires m <= 1 && n <= |t.locals| && (m == 1 ==> Poppable(t))
    requires Grown(start, Left(t, n, m), fns)
    requires r == HgrStmts(t, cmds, b, n, m) && q == ResolveStmts(b, scope, lay, cmds)
    ensures r.1 == q.0 && Ends(start, r.0, cmds, q.1, fns)
    decreases b, 1
  {
    hide Inv, Left, Poppable, Grown, Follows, FunctionsAre;
    match b
    case Done => LeftFollows(t, n, m, cmds, scope, lay, fns);
    case Then(s, rest) =>
      StepAgrees(t, cmds, s, n, scope, lay, fns, m);
      var (t1, _, n1, m1) := HgrStep(t, cmds, s, m);
      var (_, scope1, lay1) := ResolveStep(s, scope, lay, cmds);
      GrownTransitive(start, Left(t, n, m), Left(t1, n + n1, m1), fns);
      StmtsAgree(start, t1, cmds, rest, n + n1, scope1, lay1, fns, m1, (r.0, r.1.rest), (q.0.rest, q.1));
  }

  lemma {:induction false} BlockAgrees(t: Tables, cmds: Commands, b: Stmts, scope: Scope, lay: Layout,
                                       fns: set<string>)
    requires Inv(t, cmds, scope, lay, fns) && SupportedStmts(b, scope, lay, cmds, fns, false)
    ensures HgrStmts(t, cmds, b, 0, 0).1 == ResolveStmts(b, scope, lay, cmds).0
    ensures Ends(t, HgrStmts(t, cmds, b, 0, 0).0, cmds, ResolveStmts(b, scope, lay, cmds).1, fns)
    ensures Inv(HgrStmts(t, cmds, b, 0, 0).0, cmds, scope, ResolveStmts(b, scope, lay, cmds).1, fns)
    decreases b, 2
  {
    assert Left(t, 0, 0) == t;
    GrownReflexive(t, fns);
    StmtsAgree(t, t, cmds, b, 0, scope, lay, fns, 0, HgrStmts(t, cmds, b, 0, 0), ResolveStmts(b, scope, lay, cmds));
    GrownKnows(t, HgrStmts(t, cmds, b, 0, 0).0, cmds, fns, scope, lay, ResolveStmts(b, scope, lay, cmds).1);
  }

  lemma {:induction false} StmtAgrees(t: Tables, cmds: Commands, s: Stmt, scope: Scope, lay: Layout, fns: set<string>)
    requires Inv(t, cmds, scope, lay, fns) && Supported(s, scope, lay, cmds, fns)
    ensures Hgr(t, cmds, s).1 == Resolve(s, scope, lay, cmds).0
    ensures Ends(t, Hgr(t, cmds, s).0, cmds, Resolve(s, scope, lay, cmds).1, fns)
    decreases s, 1
  {
    match s
    case Assign(lhs, rhs) =>
      UseAgrees(t, cmds, lhs, scope, lay, fns);
      UseAgrees(t, cmds, rhs, scope, lay, fns);
    case Call(lhs, f, args) =>
      UseAgrees(t, cmds, lhs, scope, lay, fns);
      UsesAgree(t, cmds, args, scope, lay, fns);
    case If(c, yes, no) =>
      UseAgrees(t, cmds, c, scope, lay, fns);
      BlockAgrees(t, cmds, yes, scope, lay, fns);
      var t1, lay1 := HgrStmts(t, cmds, yes, 0, 0).0, ResolveStmts(yes, scope, lay, cmds).1;
      BlockAgrees(t1, cmds, no, scope, lay1, fns);
      GrownTransitive(t, t1, HgrStmts(t1, cmds, no, 0, 0).0, fns);
    case While(c, body) =>
      UseAgrees(t, cmds, c, scope, lay, fns);
      BlockAgrees(t, cmds, body, scope, lay, fns);
    case Block(body) => BlockAgrees(t, cmds, body, scope, lay, fns);
    case Return(e) => UseAgrees(t, cmds, e, scope, lay, fns);
    case _ =>
  }

  // ---------------------------------------------------------------- the file

  /** Between file-scope declarations nothing local is live. */
  ghost predicate TopInv(t: Tables, cmds: Commands, scope: Scope, lay: Layout, fns: set<string>) {
    Inv(t, cmds, scope, lay, fns) && t.locals == [] && t.statics == [] && !t.failed
  }

  lemma IgnoredKnown(t: Tables, t1: Tables, cmds: Commands, x: string, id: ObjectId, scope: Scope, lay: Layout,
                     fns: set<string>)
    requires TopInv(t, cmds, scope, lay, fns) && !IsGlobal(cmds, x) && x !in fns
    requires t1 == t || exists s: Symbol :: !s.isFunction && t1 == Push(t, x, s)
    ensures TopInv(t1, cmds, scope[x := Shared(id)], lay, fns)
  {
    forall y | y in scope && y != x
      ensures Knows(t1, cmds, y, scope[y])
    {
      OthersKnown(t, t1, cmds, y, scope[y]);
    }
    forall y
      ensures Records(t1, y) != [] ==> (IsFunction(t1, y) <==> y in fns)
      ensures IsGlobal(cmds, y) ==> SameFront(lay, t1, y)
    {
      assert Records(t, y) != [] ==> (IsFunction(t, y) <==> y in fns);
      assert y != x ==> Records(t1, y) == Records(t, y);
      assert IsGlobal(cmds, y) ==> SameFront(lay, t, y);
    }
  }

  /** An initialiser with nothing but ignored identifiers stays as it is. */
  lemma {:induction false} NothingToResolve(t: Tables, cmds: Commands, e: Expr, scope: Scope)
    requires forall x :: x in scope ==> Knows(t, cmds, x, scope[x])
    requires !AnyRef(e, x => IsGlobal(cmds, x))
    ensures ResolveInit(e, scope, 0) == e
  {
    match e
    case Num(_) =>
    case Id(r) =>
    case Deref(a) => NothingToResolve(t, cmds, a, scope);
    case Addr(a) => NothingToResolve(t, cmds, a, scope);
    case Binary(_, a, b) =>
      NothingToResolve(t, cmds, a, scope);
      NothingToResolve(t, cmds, b, scope);
  }

  lemma IgnoredAgrees(t: Tables, cmds: Commands, d: VarDef, scope: Scope, lay: Layout, fns: set<string>)
    requires TopInv(t, cmds, scope, lay, fns) && !IsGlobal(cmds, d.x)
    requires d.x !in fns && SupportedDef(d, Old, scope)
    ensures var scope1 := scope[d.x := Shared(GlobalObject(d.x))];
            var (t1, d1) := HandleGlobal(t, cmds, d, false);
            d1 == ResolveIgnored(d, scope1) && TopInv(t1, cmds, scope1, lay, fns)
  {
    var scope1 := scope[d.x := Shared(GlobalObject(d.x))];
    assert scope1.Keys == scope.Keys + {d.x};
    assert Records(t, d.x) != [] ==> (IsFunction(t, d.x) <==> d.x in fns);
    if !NeedsGlobalising(cmds, d) {
      IgnoredKnown(t, t, cmds, d.x, GlobalObject(d.x), scope, lay, fns);
      if d.shape.init.Some? {
        NothingToResolve(t, cmds, d.shape.init.value, scope1);
      }
    } else {
      var t1 := Push(t, d.x, DeclaredSymbol(d));
      IgnoredKnown(t, t1, cmds, d.x, GlobalObject(d.x), scope, lay, fns);
      if d.shape.init.Some? {
        NamesUsed(d.shape.init.value, scope1.Keys);
        InitAgrees(t1, cmds, d.shape.init.value, scope1, scope1.Keys, 0);
      }
    }
  }

  lemma GlobalAgrees(t: Tables, cmds: Commands, d: VarDef, scope: Scope, lay: Layout, fns: set<string>)
    requires TopInv(t, cmds, scope, lay, fns) && SupportedItem(Global(d), scope, lay, cmds, fns)
    ensures ItemDone(t, cmds, Global(d), scope, lay, fns)
  {
    if IsGlobal(cmds, d.x) {
      HandleAgrees(t, cmds, d, false, scope, lay, fns, GlobalObject(d.x));
      DefinedInv(t, cmds, d, false, scope, lay, fns, GlobalObject(d.x));
    } else {
      IgnoredAgrees(t, cmds, d, scope, lay, fns);
    }
  }

  ghost predicate ItemDone(t: Tables, cmds: Commands, item: Item, scope: Scope, lay: Layout, fns: set<string>) {
    var (t1, item1) := HandleItem(t, cmds, item);
    var (item1', scope1, lay1) := ResolveItem(item, scope, lay, cmds);
    item1 == item1' && TopInv(t1, cmds, scope1, lay1, fns)
  }

  /** A struct that becomes defined changes no form: the set of defined structs only grows. */
  lemma StructKnown(t: Tables, cmds: Commands, tag: string, scope: Scope, lay: Layout, fns: set<string>)
    requires TopInv(t, cmds, scope, lay, fns)
    ensures ItemDone(t, cmds, Struct(tag), scope, lay, fns)
  {
    var t1 := t.(structs := t.structs + {tag});
    forall x | x in scope
      ensures Knows(t1, cmds, x, scope[x])
    {
      assert Knows(t, cmds, x, scope[x]);
      assert UndefinedStruct(t1, x) ==> UndefinedStruct(t, x);
    }
    forall x
      ensures Records(t1, x) != [] ==> (IsFunction(t1, x) <==> x in fns)
      ensures IsGlobal(cmds, x) ==> SameFront(lay.(structs := lay.structs + {tag}), t1, x)
    {
      assert Records(t, x) != [] ==> (IsFunction(t, x) <==> x in fns);
      assert IsGlobal(cmds, x) ==> SameFront(lay, t, x);
    }
  }

  lemma FunctionKnown(t: Tables, cmds: Commands, f: string, scope: Scope, lay: Layout, fns: set<string>)
    requires TopInv(t, cmds, scope, lay, fns) && f in fns
    ensures TopInv(DefineFunction(t, f), cmds, scope[f := FunctionName], First(lay, f, Kind(false, false, "")), fns)
  {
    var t1, lay1 := DefineFunction(t, f), First(lay, f, Kind(false, false, ""));
    assert Records(t, f) != [] ==> (IsFunction(t, f) <==> f in fns);
    forall x | x in scope && x != f
      ensures Knows(t1, cmds, x, scope[x])
    {
      OthersKnown(t, t1, cmds, x, scope[x]);
    }
    forall x
      ensures Records(t1, x) != [] ==> (IsFunction(t1, x) <==> x in fns)
      ensures IsGlobal(cmds, x) ==> SameFront(lay1, t1, x)
    {
      assert Records(t, x) != [] ==> (IsFunction(t, x) <==> x in fns);
      assert IsGlobal(cmds, x) ==> SameFront(lay, t, x);
      assert x != f ==> Records(t1, x) == Records(t, x);
    }
  }

  lemma FunctionAgrees(t: Tables, cmds: Commands, f: string, params: seq<string>, body: Stmts, scope: Scope,
                       lay: Layout,
                       fns: set<string>)
    requires TopInv(t, cmds, scope, lay, fns) && SupportedItem(Function(f, params, body), scope, lay, cmds, fns)
    ensures ItemDone(t, cmds, Function(f, params, body), scope, lay, fns)
  {
    var t1, lay1 := DefineFunction(t, f), First(lay, f, Kind(false, false, ""));
    var scope1 := scope[f := FunctionName];
    FunctionKnown(t, cmds, f, scope, lay, fns);
    LocalsKnown(t1, cmds, scope1, lay1, fns, params);
    var t2 := t1.(locals := t1.locals + params);
    BlockAgrees(t2, cmds, body, Locals(scope1, params), lay1, fns);
    ParamsPopped(t1, t2, HgrStmts(t2, cmds, body, 0, 0).0, cmds, params, scope1, lay1,
                 ResolveStmts(body, Locals(scope1, params), lay1, cmds).1, fns);
  }

  lemma ParamsPopped(t: Tables, t1: Tables, t2: Tables, cmds: Commands, params: seq<string>, scope: Scope, lay: Layout,
                     lay2: Layout, fns: set<string>)
    requires TopInv(t, cmds, scope, lay, fns) && t1 == t.(locals := t.locals + params)
    requires Ends(t1, t2, cmds, lay2, fns)
    ensures TopInv(PopLocals(t2, |params|), cmds, scope, lay2, fns)
  {
    var t3 := PopLocals(t2, |params|);
    assert t1.symbols == t.symbols && t3.symbols == t2.symbols;
    assert Grown(t, t3, fns);
    assert FunctionsAre(t3, fns) by {
      forall x
        ensures Records(t3, x) == Records(t2, x)
      {
      }
    }
    forall x
      ensures IsGlobal(cmds, x) ==> SameFront(lay2, t3, x)
    {
      assert IsGlobal(cmds, x) ==> SameFront(lay2, t2, x);
    }
    GrownKnows(t, t3, cmds, fns, scope, lay, lay2);
  }

  lemma ItemAgrees(t: Tables, cmds: Commands, item: Item, scope: Scope, lay: Layout, fns: set<string>)
    requires TopInv(t, cmds, scope, lay, fns) && SupportedItem(item, scope, lay, cmds, fns)
    ensures ItemDone(t, cmds, item, scope, lay, fns)
  {
    match item
    case Struct(tag) => StructKnown(t, cmds, tag, scope, lay, fns);
    case Global(d) => GlobalAgrees(t, cmds, d, scope, lay, fns);
    case Function(f, params, body) => FunctionAgrees(t, cmds, f, params, body, scope, lay, fns);
  }

  lemma {:induction false} ItemsAgree(t: Tables, cmds: Commands, p: Program, scope: Scope, lay: Layout,
                                      fns: set<string>)
    requires TopInv(t, cmds, scope, lay, fns) && SupportedItems(p, scope, lay, cmds, fns)
    ensures HandleItems(t, cmds, p).1 == ResolveItems(p, scope, lay, cmds) && !HandleItems(t, cmds, p).0.failed
    decreases p
  {
    if p != [] {
      ItemAgrees(t, cmds, p[0], scope, lay, fns);
      var (_, scope1, lay1) := ResolveItem(p[0], scope, lay, cmds);
      ItemsAgree(HandleItem(t, cmds, p[0]).0, cmds, p[1..], scope1, lay1, fns);
    }
  }

  /** On supported programs the globaliser meets no error and rewrites what C's scoping says, and nothing else. */
  lemma {:induction false} WalkIsResolution(cmds: Commands, p: Program)
    requires SupportedProgram(p, cmds)
    ensures HandleItems(Empty, cmds, p).1 == ResolveProgram(p, cmds)
    ensures !HandleItems(Empty, cmds, p).0.failed
  {
    ItemsAgree(Empty, cmds, p, map[], Layout(map[], {}, 0), FunctionNames(p));
  }
}
