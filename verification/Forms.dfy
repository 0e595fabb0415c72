/**
  The form in which each object of a program is emitted, read off the source: a variable by itself, an array with a slot
  per stack, or an instance per stack.
*/
module Forms {
  import opened Wrappers
  import opened CLang
  import opened Globaliser
  import opened Lexical

  // ---------------------------------------------------------------- what is emitted

  datatype Definition = Definition(id: ObjectId, d: VarDef)

  function DefsOfStmts(b: Stmts): seq<Definition>
    decreases b, 0
  {
    match b
    case Done => []
    case Then(s, rest) => DefsOfStmt(s) + DefsOfStmts(rest)
  }

  function DefsOfStmt(s: Stmt): seq<Definition>
    decreases s, 1
  {
    match s
    case If(_, yes, no) => DefsOfStmts(yes) + DefsOfStmts(no)
    case While(_, body) => DefsOfStmts(body)
    case Block(body) => DefsOfStmts(body)
    case Static(site, d) => [Definition(StaticObject(site), d)]
    case _ => []
  }

  function DefsOfItem(item: Item): seq<Definition> {
    match item
    case Struct(_) => []
    case Global(d) => [Definition(GlobalObject(d.x), d)]
    case Function(_, _, body) => DefsOfStmts(body)
  }

  /** All the definitions of static objects in a program, in order. */
  function DefsOf(p: Program): seq<Definition> {
    if p == [] then [] else DefsOfItem(p[0]) + DefsOf(p[1..])
  }

  predicate SameForm(a: VarDef, b: VarDef) {
    a.shape.Single? == b.shape.Single? && a.shape.Slots? == b.shape.Slots?
  }

  ghost predicate OneForm(defs: seq<Definition>) {
    forall i, j :: 0 <= i < j < |defs| && defs[i].id == defs[j].id ==> SameForm(defs[i].d, defs[j].d)
  }

  // ---------------------------------------------------------------- what is declared

  /** A declaration of an object in the source, with the structs that have been defined before it. */
  datatype Declaration = Declaration(id: ObjectId, d: VarDef, structs: set<string>)

  function DeclsOfStmts(b: Stmts, structs: set<string>): seq<Declaration>
    decreases b, 0
  {
    match b
    case Done => []
    case Then(s, rest) => DeclsOfStmt(s, structs) + DeclsOfStmts(rest, structs)
  }

  function DeclsOfStmt(s: Stmt, structs: set<string>): seq<Declaration>
    decreases s, 1
  {
    match s
    case If(_, yes, no) => DeclsOfStmts(yes, structs) + DeclsOfStmts(no, structs)
    case While(_, body) => DeclsOfStmts(body, structs)
    case Block(body) => DeclsOfStmts(body, structs)
    case Static(site, d) => [Declaration(StaticObject(site), d, structs)]
    case _ => []
  }

  function DeclsOfItem(item: Item, structs: set<string>): seq<Declaration> {
    match item
    case Struct(_) => []
    case Global(d) => [Declaration(GlobalObject(d.x), d, structs)]
    case Function(_, _, body) => DeclsOfStmts(body, structs)
  }

  function StructsAfter(item: Item, structs: set<string>): set<string> {
    if item.Struct? then structs + {item.tag} else structs
  }

  /** All declarations of static objects in a program, in order. */
  function DeclsOf(p: Program, structs: set<string>): seq<Declaration> {
    if p == [] then [] else DeclsOfItem(p[0], structs) + DeclsOf(p[1..], StructsAfter(p[0], structs))
  }

  /** What the first declaration of an identifier, anywhere in the file, says of it. */
  function FirstKind(decls: seq<Declaration>, x: string): Option<Kind> {
    if decls == [] then None else if decls[0].d.x == x then Some(decls[0].d.kind) else FirstKind(decls[1..], x)
  }

  /** A plain variable of a struct type that has not been defined. */
  predicate Incomplete(k: Kind, structs: set<string>) {
    !k.isPointer && k.tag != "" && k.tag !in structs
  }

  datatype Emission = Alone | PerSlot | PerInstance

  function EmissionOf(first: Kind, d: VarDef, structs: set<string>, cmds: Commands): Emission {
    if !IsGlobal(cmds, d.x) then Alone
    else if d.kind.isArray || Configured(cmds, d.x) || (!d.kind.isPointer && Incomplete(first, structs)) then PerInstance
    else PerSlot
  }

  function EmissionIn(all: seq<Declaration>, a: Declaration, cmds: Commands): Emission {
    EmissionOf(FirstKind(all, a.d.x).UnwrapOr(a.d.kind), a.d, a.structs, cmds)
  }

  /** All declarations of an object give it the same form. */
  ghost predicate DeclaredInOneForm(all: seq<Declaration>, cmds: Commands) {
    forall i, j :: 0 <= i < j < |all| && all[i].id == all[j].id ==>
      EmissionIn(all, all[i], cmds) == EmissionIn(all, all[j], cmds)
  }

  // ---------------------------------------------------------------- one is the form of the other

  lemma {:induction false} FirstOfBoth(a: seq<Declaration>, b: seq<Declaration>, x: string)
    ensures FirstKind(a + b, x) == if FirstKind(a, x).Some? then FirstKind(a, x) else FirstKind(b, x)
    decreases a
  {
    if a == [] {
      assert a + b == b;
    } else {
      assert (a + b)[1..] == a[1..] + b;
      FirstOfBoth(a[1..], b, x);
    }
  }

  /** The layout knows the first declarations so far. */
  ghost predicate Fronts(lay: Layout, before: seq<Declaration>, cmds: Commands, fns: set<string>) {
    forall x :: IsGlobal(cmds, x) && x !in fns ==> FrontOf(lay, x) == FirstKind(before, x)
  }

  function FrontOf(lay: Layout, x: string): Option<Kind> {
    if x in lay.front then Some(lay.front[x]) else None
  }

  predicate HasEmission(d: VarDef, e: Emission) {
    match e
    case Alone => d.shape.Single?
    case PerSlot => d.shape.Slots?
    case PerInstance => d.shape.Expanded?
  }

  ghost predicate Emits(defs: seq<Definition>, decls: seq<Declaration>, all: seq<Declaration>, cmds: Commands) {
    && |defs| == |decls|
    && forall i :: 0 <= i < |defs| ==>
         && defs[i].id == decls[i].id && IsCopied(decls[i].d, defs[i].d)
         && HasEmission(defs[i].d, EmissionIn(all, decls[i], cmds))
  }

  /** The name and the type stay; an initialiser stays an initialiser, or becomes one for each of 50 stacks. */
  predicate IsCopied(d: VarDef, d': VarDef) {
    && d'.x == d.x && d'.kind == d.kind && d.shape.Single?
    && match d'.shape
       case Single(init) => init.Some? == d.shape.init.Some?
       case Slots(inits) => inits.Some? == d.shape.init.Some? && (inits.Some? ==> |inits.value| == 50)
       case Expanded(inits, _) => inits.Some? == d.shape.init.Some? && (inits.Some? ==> |inits.value| == 50)
  }

  lemma EmitsBoth(a: seq<Definition>, b: seq<Definition>, a1: seq<Declaration>, b1: seq<Declaration>,
                  all: seq<Declaration>, cmds: Commands)
    requires Emits(a, a1, all, cmds) && Emits(b, b1, all, cmds)
    ensures Emits(a + b, a1 + b1, all, cmds)
  {
  }

  lemma Grouped<T>(a: seq<T>, b: seq<T>, c: seq<T>, all: seq<T>)
    requires a + (b + c) <= all
    ensures a + b <= all && a + b + c <= all && a + b + c == a + (b + c)
  {
    assert a + b + c == a + (b + c);
  }

  /** One declaration. */
  lemma DeclEmits(d: VarDef, id: ObjectId, scope: Scope, lay: Layout, cmds: Commands, fns: set<string>,
                  before: seq<Declaration>, all: seq<Declaration>)
    requires d.shape.Single? && IsGlobal(cmds, d.x) && d.x !in fns && Fronts(lay, before, cmds, fns)
    requires before + [Declaration(id, d, lay.structs)] <= all
    ensures var (lay1, form) := Declare(lay, cmds, d);
            && Emits([Definition(id, ResolveDef(d, form, scope))], [Declaration(id, d, lay.structs)], all, cmds)
            && Fronts(lay1, before + [Declaration(id, d, lay.structs)], cmds, fns) && lay1.structs == lay.structs
  {
    var a := Declaration(id, d, lay.structs);
    var now := before + [a];
    assert all == now + all[|now|..];
    FirstOfBoth(now, all[|now|..], d.x);
    assert FirstKind([a], d.x) == Some(d.kind);
    forall x
      ensures FirstKind(now, x) == if FirstKind(before, x).Some? then FirstKind(before, x)
                                   else if x == d.x then Some(d.kind) else None
    {
      FirstOfBoth(before, [a], x);
      assert [a][1..] == [];
    }
  }

  lemma {:induction false} StmtsEmit(b: Stmts, scope: Scope, lay: Layout, cmds: Commands, fns: set<string>, full: bool,
                                     before: seq<Declaration>, all: seq<Declaration>, q: (Stmts, Layout))
    requires SupportedStmts(b, scope, lay, cmds, fns, full) && Fronts(lay, before, cmds, fns)
    requires before + DeclsOfStmts(b, lay.structs) <= all && q == ResolveStmts(b, scope, lay, cmds)
    ensures Emits(DefsOfStmts(q.0), DeclsOfStmts(b, lay.structs), all, cmds)
    ensures Fronts(q.1, before + DeclsOfStmts(b, lay.structs), cmds, fns) && q.1.structs == lay.structs
    decreases b, 1
  {
    match b
    case Done =>
      assert before + [] == before;
    case Then(s, rest) =>
      var (s', scope1, lay1) := ResolveStep(s, scope, lay, cmds);
      var rest' := ResolveStmts(rest, scope1, lay1, cmds);
      assert q == (Then(s', rest'.0), rest'.1);
      assert SupportedStep(s, scope, lay, cmds, fns, full);
      hide SupportedStep, SupportedStmts, ResolveStep, ResolveStmts, Fronts, Emits;
      var here, later := DeclsOfStmt(s, lay.structs), DeclsOfStmts(rest, lay.structs);
      Grouped(before, here, later, all);
      StepEmits(s, scope, lay, cmds, fns, full, before, all);
      assert SupportedStmts(rest, scope1, lay1, cmds, fns, full || s.Static?) by {
        Continues(s, rest, scope, lay, cmds, fns, full);
      }
      StmtsEmit(rest, scope1, lay1, cmds, fns, full || s.Static?, before + here, all, rest');
      EmitsBoth(DefsOfStmt(s'), DefsOfStmts(rest'.0), here, later, all, cmds);
  }

  lemma {:induction false} Continues(s: Stmt, rest: Stmts, scope: Scope, lay: Layout, cmds: Commands,
                                     fns: set<string>, full: bool)
    requires SupportedStmts(Then(s, rest), scope, lay, cmds, fns, full)
    ensures var (_, scope1, lay1) := ResolveStep(s, scope, lay, cmds);
            SupportedStmts(rest, scope1, lay1, cmds, fns, full || s.Static?)
  {
  }

  lemma {:induction false} StepEmits(s: Stmt, scope: Scope, lay: Layout, cmds: Commands, fns: set<string>, full: bool,
                                     before: seq<Declaration>, all: seq<Declaration>)
    requires SupportedStep(s, scope, lay, cmds, fns, full) && Fronts(lay, before, cmds, fns)
    requires before + DeclsOfStmt(s, lay.structs) <= all
    ensures var (s', _, lay1) := ResolveStep(s, scope, lay, cmds);
            && Emits(DefsOfStmt(s'), DeclsOfStmt(s, lay.structs), all, cmds)
            && Fronts(lay1, before + DeclsOfStmt(s, lay.structs), cmds, fns) && lay1.structs == lay.structs
    decreases s, 2
  {
    hide Fronts, Emits;
    match s
    case Static(site, d) =>
      var form := Declare(lay, cmds, d).1;
      DeclEmits(d, StaticObject(site), scope[d.x := Bound(StaticObject(site), form)], lay, cmds, fns, before, all);
    case If(_, yes, no) =>
      var here, later := DeclsOfStmts(yes, lay.structs), DeclsOfStmts(no, lay.structs);
      Grouped(before, here, later, all);
      var q := ResolveStmts(yes, scope, lay, cmds);
      StmtsEmit(yes, scope, lay, cmds, fns, false, before, all, q);
      var r := ResolveStmts(no, scope, q.1, cmds);
      StmtsEmit(no, scope, q.1, cmds, fns, false, before + here, all, r);
      EmitsBoth(DefsOfStmts(q.0), DefsOfStmts(r.0), here, later, all, cmds);
    case While(_, body) => StmtsEmit(body, scope, lay, cmds, fns, false, before, all, ResolveStmts(body, scope, lay, cmds));
    case Block(body) => StmtsEmit(body, scope, lay, cmds, fns, false, before, all, ResolveStmts(body, scope, lay, cmds));
    case _ => NothingEmitted(lay, cmds, fns, before, all);
  }

  lemma NothingEmitted(lay: Layout, cmds: Commands, fns: set<string>, before: seq<Declaration>, all: seq<Declaration>)
    ensures Emits([], [], all, cmds) && (Fronts(lay, before, cmds, fns) ==> Fronts(lay, before + [], cmds, fns))
  {
    assert before + [] == before;
  }

  lemma ItemEmits(item: Item, scope: Scope, lay: Layout, cmds: Commands, fns: set<string>, before: seq<Declaration>,
                  all: seq<Declaration>)
    requires SupportedItem(item, scope, lay, cmds, fns) && Fronts(lay, before, cmds, fns)
    requires before + DeclsOfItem(item, lay.structs) <= all
    ensures var (item', _, lay1) := ResolveItem(item, scope, lay, cmds);
            && Emits(DefsOfItem(item'), DeclsOfItem(item, lay.structs), all, cmds)
            && Fronts(lay1, before + DeclsOfItem(item, lay.structs), cmds, fns)
            && lay1.structs == StructsAfter(item, lay.structs)
  {
    match item
    case Struct(tag) =>
      NothingEmitted(lay.(structs := lay.structs + {tag}), cmds, fns, before, all);
    case Global(d) =>
      if IsGlobal(cmds, d.x) {
        var form := Declare(lay, cmds, d).1;
        DeclEmits(d, GlobalObject(d.x), scope[d.x := Bound(GlobalObject(d.x), form)], lay, cmds, fns, before, all);
      } else {
        var a := Declaration(GlobalObject(d.x), d, lay.structs);
        forall x | IsGlobal(cmds, x) && x !in fns
          ensures FrontOf(lay, x) == FirstKind(before + [a], x)
        {
          FirstOfBoth(before, [a], x);
          assert [a][1..] == [];
        }
      }
    case Function(f, params, body) =>
      var lay1 := First(lay, f, Kind(false, false, ""));
      assert Fronts(lay1, before, cmds, fns);
      var inner := Locals(scope[f := FunctionName], params);
      StmtsEmit(body, inner, lay1, cmds, fns, false, before, all, ResolveStmts(body, inner, lay1, cmds));
  }

  lemma {:induction false} ItemsEmit(p: Program, scope: Scope, lay: Layout, cmds: Commands, fns: set<string>,
                                     before: seq<Declaration>, all: seq<Declaration>)
    requires SupportedItems(p, scope, lay, cmds, fns) && Fronts(lay, before, cmds, fns)
    requires before + DeclsOf(p, lay.structs) <= all
    ensures Emits(DefsOf(ResolveItems(p, scope, lay, cmds)), DeclsOf(p, lay.structs), all, cmds)
    decreases p
  {
    if p != [] {
      var (item', scope1, lay1) := ResolveItem(p[0], scope, lay, cmds);
      var here, later := DeclsOfItem(p[0], lay.structs), DeclsOf(p[1..], StructsAfter(p[0], lay.structs));
      Grouped(before, here, later, all);
      ItemEmits(p[0], scope, lay, cmds, fns, before, all);
      ItemsEmit(p[1..], scope1, lay1, cmds, fns, before + here, all);
      var rest' := ResolveItems(p[1..], scope1, lay1, cmds);
      assert ([item'] + rest')[1..] == rest';
      EmitsBoth(DefsOfItem(item'), DefsOf(rest'), here, later, all, cmds);
    }
  }

  /** Each object is emitted in one form exactly if the source declares it so. */
  lemma {:induction false} OneFormIff(p: Program, cmds: Commands)
    requires SupportedProgram(p, cmds)
    ensures OneForm(DefsOf(ResolveProgram(p, cmds))) <==> DeclaredInOneForm(DeclsOf(p, {}), cmds)
  {
    var all, defs := DeclsOf(p, {}), DefsOf(ResolveProgram(p, cmds));
    assert [] + all == all;
    ItemsEmit(p, map[], Layout(map[], {}, 0), cmds, FunctionNames(p), [], all);
    hide DeclsOf, DefsOf, ResolveProgram;
    EmittedAlike(defs, all, cmds);
  }

  lemma EmittedAlike(defs: seq<Definition>, all: seq<Declaration>, cmds: Commands)
    requires Emits(defs, all, all, cmds)
    ensures OneForm(defs) <==> DeclaredInOneForm(all, cmds)
  {
    forall i, j | 0 <= i < j < |all|
      ensures SameForm(defs[i].d, defs[j].d) <==> EmissionIn(all, all[i], cmds) == EmissionIn(all, all[j], cmds)
    {
      assert HasEmission(defs[i].d, EmissionIn(all, all[i], cmds));
      assert HasEmission(defs[j].d, EmissionIn(all, all[j], cmds));
    }
    hide SameForm, EmissionIn;
  }

  // ---------------------------------------------------------------- when a form changes

  /**
    A declaration of kind k1 does not get the form of one of kind k: when one of them is an array, or of a plain struct
    type that is not defined yet, and the other is neither.
  */
  predicate FormChanges(first: Kind, k: Kind, k1: Kind, structs: set<string>, structs1: set<string>) {
    if k.isArray || (!k.isPointer && Incomplete(first, structs)) then
      !k1.isArray && (k1.isPointer || !Incomplete(first, structs1))
    else
      k1.isArray || (!k1.isPointer && Incomplete(first, structs1))
  }

  lemma {:induction false} FirstFound(decls: seq<Declaration>, i: nat)
    requires i < |decls|
    ensures FirstKind(decls, decls[i].d.x).Some?
    decreases decls
  {
    if decls[0].d.x != decls[i].d.x {
      FirstFound(decls[1..], i - 1);
    }
  }

  /** Two declarations of one object, both of which are rewritten and not marked for instances. */
  predicate Clash(all: seq<Declaration>, i: nat, j: nat, cmds: Commands)
    requires i < j < |all|
  {
    var a, b := all[i], all[j];
    && a.id == b.id && IsGlobal(cmds, a.d.x) && !Configured(cmds, a.d.x)
    && FormChanges(FirstKind(all, a.d.x).UnwrapOr(a.d.kind), a.d.kind, b.d.kind, a.structs, b.structs)
  }

  /** In terms of what the declarations say, if the sites of static locals are all different. */
  lemma OneFormCases(all: seq<Declaration>, cmds: Commands)
    requires forall i, j :: 0 <= i < j < |all| && all[i].id == all[j].id ==> all[i].d.x == all[j].d.x
    ensures DeclaredInOneForm(all, cmds) <==> forall i, j :: 0 <= i < j < |all| ==> !Clash(all, i, j, cmds)
  {
    forall i, j | 0 <= i < j < |all| && all[i].id == all[j].id
      ensures EmissionIn(all, all[i], cmds) == EmissionIn(all, all[j], cmds) <==> !Clash(all, i, j, cmds)
    {
      FirstFound(all, i);
      hide FirstKind;
    }
  }
}
