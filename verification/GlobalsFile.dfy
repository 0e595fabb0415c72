/**
  What the globals file says, and what comes of it (nsc-0.5.3/globaliser/handle_global.cc): which definitions stay single,
  which get a slot or an instance per stack, and what a reference to a file-scope variable becomes.
*/
module GlobalsFile {
  import opened Wrappers
  import opened CLang
  import opened Globaliser
  import opened Lexical
  import opened Forms
  import ScopeProof

  /** The place of the first declaration of an identifier, anywhere in the file. */
  ghost predicate IsFirst(all: seq<Declaration>, f: nat, x: string) {
    f < |all| && all[f].d.x == x && forall j :: 0 <= j < f ==> all[j].d.x != x
  }

  /**
    A definition with an instance per stack: of an array, of a variable that the file marks with $expand_decl, or of one
    that is no pointer and was first declared, as no pointer either, with a struct that is not defined yet.
  */
  ghost predicate HasInstanceEach(all: seq<Declaration>, i: nat, cmds: Commands)
    requires i < |all|
  {
    var x := all[i].d.x;
    || all[i].d.kind.isArray
    || (x in cmds && cmds[x] == ExpandDecl)
    || (!all[i].d.kind.isPointer &&
        exists f: nat :: IsFirst(all, f, x) && !all[f].d.kind.isPointer && all[f].d.kind.tag !in all[i].structs + {""})
  }

  lemma {:induction false} FirstIs(all: seq<Declaration>, x: string) returns (f: nat)
    requires FirstKind(all, x).Some?
    ensures IsFirst(all, f, x) && FirstKind(all, x) == Some(all[f].d.kind)
    decreases all
  {
    if all[0].d.x == x {
      f := 0;
    } else {
      var g := FirstIs(all[1..], x);
      f := g + 1;
      assert forall j :: 1 <= j < f ==> all[j] == all[1..][j - 1];
    }
  }

  lemma EmissionMeans(all: seq<Declaration>, i: nat, cmds: Commands)
    requires i < |all|
    ensures var x := all[i].d.x;
            && (EmissionIn(all, all[i], cmds).Alone? <==> x in cmds && cmds[x] == Ignored)
            && (EmissionIn(all, all[i], cmds).PerInstance? <==>
                  !(x in cmds && cmds[x] == Ignored) && HasInstanceEach(all, i, cmds))
  {
    var x := all[i].d.x;
    FirstFound(all, i);
    var f := FirstIs(all, x);
    hide FirstKind;
    forall g: nat | IsFirst(all, g, x)
      ensures g == f
    {
      assert !(g < f) && !(f < g);
    }
  }

  /**
    Every definition of a supported file comes out in its place, with its name and type and a copy of its initialiser for
    each of 50 stacks: single exactly if the globals file marks its name as ignored; otherwise with an instance per stack
    in the cases above, and with a slot per stack in all others.  A name that is just listed, or not at all, is rewritten.
  */
  lemma {:induction false} WhichForm(p: Program, cmds: Commands, i: nat)
    requires SupportedProgram(p, cmds) && i < |DeclsOf(p, {})|
    ensures var all, defs := DeclsOf(p, {}), DefsOf(HandleItems(Empty, cmds, p).1);
            var x := all[i].d.x;
            && |defs| == |all| && defs[i].id == all[i].id && IsCopied(all[i].d, defs[i].d)
            && (defs[i].d.shape.Single? <==> x in cmds && cmds[x] == Ignored)
            && (defs[i].d.shape.Expanded? <==> !(x in cmds && cmds[x] == Ignored) && HasInstanceEach(all, i, cmds))
  {
    FormsAre(p, cmds);
    EmissionMeans(DeclsOf(p, {}), i, cmds);
    hide DeclsOf, DefsOf, HandleItems, SupportedProgram, EmissionIn, HasInstanceEach, IsCopied;
  }

  lemma {:induction false} FormsAre(p: Program, cmds: Commands)
    requires SupportedProgram(p, cmds)
    ensures Emits(DefsOf(HandleItems(Empty, cmds, p).1), DeclsOf(p, {}), DeclsOf(p, {}), cmds)
  {
    var all := DeclsOf(p, {});
    assert [] + all == all;
    ItemsEmit(p, map[], Layout(map[], {}, 0), cmds, FunctionNames(p), [], all);
    ScopeProof.WalkIsResolution(cmds, p);
  }

  // ---------------------------------------------------------------- references

  ghost predicate IsLast(defs: seq<Definition>, k: nat, x: string) {
    && k < |defs| && defs[k].id == GlobalObject(x)
    && forall j :: k < j < |defs| ==> defs[j].id != GlobalObject(x)
  }

  /** What a file-scope name is bound to, by the definition it got. */
  function BindingOf(d: VarDef): Binding {
    var id := GlobalObject(d.x);
    match d.shape
    case Single(_) => Shared(id)
    case Slots(_) => Bound(id, Old)
    case Expanded(_, n) => Bound(id, New(n))
  }

  /** Each variable defined so far is bound by its last definition. */
  ghost predicate ScopeFits(scope: Scope, defs: seq<Definition>, fns: set<string>) {
    forall x, k: nat :: IsLast(defs, k, x) ==>
      defs[k].d.x == x && x !in fns && x in scope && scope[x] == BindingOf(defs[k].d)
  }

  ghost predicate NoneGlobal(defs: seq<Definition>) {
    forall j :: 0 <= j < |defs| ==> defs[j].id.StaticObject?
  }

  lemma {:induction false} StmtsDefineStatics(b: Stmts)
    ensures NoneGlobal(DefsOfStmts(b))
    decreases b, 0
  {
    if b.Then? {
      StmtDefinesStatics(b.first);
      StmtsDefineStatics(b.rest);
    }
  }

  lemma {:induction false} StmtDefinesStatics(s: Stmt)
    ensures NoneGlobal(DefsOfStmt(s))
    decreases s, 1
  {
    match s
    case If(_, yes, no) =>
      StmtsDefineStatics(yes);
      StmtsDefineStatics(no);
    case While(_, body) => StmtsDefineStatics(body);
    case Block(body) => StmtsDefineStatics(body);
    case _ =>
  }

  lemma FitsBehindStatics(scope: Scope, defs: seq<Definition>, more: seq<Definition>, fns: set<string>)
    requires ScopeFits(scope, defs, fns) && NoneGlobal(more)
    ensures ScopeFits(scope, defs + more, fns)
  {
    var all := defs + more;
    assert forall j :: |defs| <= j < |all| ==> all[j] == more[j - |defs|];
    forall x, k: nat | IsLast(all, k, x)
      ensures all[k].d.x == x && x !in fns && x in scope && scope[x] == BindingOf(all[k].d)
    {
      assert forall j :: 0 <= j < |defs| ==> all[j] == defs[j];
      assert IsLast(defs, k, x);
    }
  }

  lemma FitsBehindOne(scope: Scope, defs: seq<Definition>, d: VarDef, fns: set<string>)
    requires ScopeFits(scope, defs, fns) && d.x !in fns
    ensures ScopeFits(scope[d.x := BindingOf(d)], defs + [Definition(GlobalObject(d.x), d)], fns)
  {
    var all := defs + [Definition(GlobalObject(d.x), d)];
    hide BindingOf;
    forall x, k: nat | IsLast(all, k, x)
      ensures all[k].d.x == x && x !in fns && x in scope[d.x := BindingOf(d)]
      ensures scope[d.x := BindingOf(d)][x] == BindingOf(all[k].d)
    {
      if x == d.x {
        assert all[|defs|].id == GlobalObject(x);
      } else {
        assert forall j :: 0 <= j < |defs| ==> all[j] == defs[j];
        assert IsLast(defs, k, x);
      }
    }
  }

  /** Each item keeps this. */
  lemma ItemFits(item: Item, scope: Scope, lay: Layout, cmds: Commands, fns: set<string>, defs: seq<Definition>)
    requires SupportedItem(item, scope, lay, cmds, fns) && ScopeFits(scope, defs, fns)
    ensures var (item', scope1, _) := ResolveItem(item, scope, lay, cmds);
            ScopeFits(scope1, defs + DefsOfItem(item'), fns)
  {
    var (item', scope1, _) := ResolveItem(item, scope, lay, cmds);
    match item
    case Struct(_) => FitsBehindStatics(scope, defs, [], fns);
    case Global(d) =>
      assert scope1 == scope[d.x := BindingOf(item'.d)] && item'.d.x == d.x;
      FitsBehindOne(scope, defs, item'.d, fns);
    case Function(f, _, _) =>
      assert ScopeFits(scope1, defs, fns);
      StmtsDefineStatics(item'.body);
      FitsBehindStatics(scope1, defs, DefsOfStmts(item'.body), fns);
  }

  /** `int f(params) { return x; }`, and what it may become. */
  function Reader(f: string, params: seq<string>, r: Ref): Item {
    Function(f, params, Then(Stmt.Return(Id(r)), Done))
  }

  function ReferenceTo(x: string, d: VarDef): Ref {
    match d.shape
    case Single(_) => Plain(Src(x))
    case Slots(_) => Slot(OldArray(x))
    case Expanded(_, n) => Via(PtrArray(x, n))
  }

  lemma {:induction false} NothingBehind(q: Program, scope: Scope, lay: Layout, cmds: Commands)
    requires q == []
    ensures ResolveItems(q, scope, lay, cmds) == [] && DefsOf([]) == []
  {
  }

  lemma {:induction false} ReaderDefinesNothing(item: Item, scope: Scope, lay: Layout, cmds: Commands, f: string,
                                                params: seq<string>,
                             x: string)
    requires item == Reader(f, params, Plain(Src(x)))
    ensures var inner := Locals(scope[f := FunctionName], params);
            var item' := ResolveItem(item, scope, lay, cmds).0;
            item' == Reader(f, params, RefOf(inner, x)) && DefsOfItem(item') == []
  {
    var s, inner, lay1 := Stmt.Return(Id(Plain(Src(x)))), Locals(scope[f := FunctionName], params),
                          First(lay, f, Kind(false, false, ""));
    assert ResolveStep(s, inner, lay1, cmds) == (Stmt.Return(Id(RefOf(inner, x))), inner, lay1);
    assert ResolveStmts(Done, inner, lay1, cmds) == (Done, lay1);
    var s' := Stmt.Return(Id(RefOf(inner, x)));
    assert ResolveStmts(Then(s, Done), inner, lay1, cmds) == (Then(s', Done), lay1);
    assert DefsOfStmt(s') == [] && DefsOfStmts(Then(s', Done)) == DefsOfStmt(s') + DefsOfStmts(Done);
  }

  /** A function that reads a file-scope variable, behind some other items. */
  lemma {:induction false} ReaderResolved(q: Program, f: string, params: seq<string>, x: string, scope: Scope,
                                          lay: Layout,
                                          cmds: Commands, fns: set<string>, before: seq<Definition>, k: nat)
    requires q != [] && q[|q| - 1] == Reader(f, params, Plain(Src(x))) && x !in params
    requires SupportedItems(q, scope, lay, cmds, fns) && ScopeFits(scope, before, fns)
    requires IsLast(before + DefsOf(ResolveItems(q, scope, lay, cmds)), k, x)
    ensures var out := ResolveItems(q, scope, lay, cmds);
            |out| == |q| && out[|q| - 1] == Reader(f, params, ReferenceTo(x, (before + DefsOf(out))[k].d))
    decreases q
  {
    var (item', scope1, lay1) := ResolveItem(q[0], scope, lay, cmds);
    var out, rest := ResolveItems(q, scope, lay, cmds), ResolveItems(q[1..], scope1, lay1, cmds);
    assert out == [item'] + rest && out[1..] == rest;
    if |q| == 1 {
      NothingBehind(q[1..], scope1, lay1, cmds);
      ReaderDefinesNothing(q[0], scope, lay, cmds, f, params, x);
      assert DefsOf(out) == [] && before + [] == before;
      ScopeProof.LocalsAre(scope[f := FunctionName], params, x);
      assert x != f;
    } else {
      var here := DefsOfItem(item');
      ItemFits(q[0], scope, lay, cmds, fns, before);
      assert before + DefsOf(out) == before + here + DefsOf(rest);
      ReaderResolved(q[1..], f, params, x, scope1, lay1, cmds, fns, before + here, k);
    }
  }

  /**
    A function behind the rest of the file that returns x: if the globals file marks x as ignored, it still does.
    Otherwise it returns what the pointer of the running stack points to, if the last definition of x got instances, and
    the running stack's slot of x if it did not.
  */
  lemma {:induction false} WhichReference(p: Program, f: string, params: seq<string>, x: string, cmds: Commands, k: nat)
    requires var q := p + [Reader(f, params, Plain(Src(x)))];
             && SupportedProgram(q, cmds) && x !in params && k < |DeclsOf(q, {})| && DeclsOf(q, {})[k].id == GlobalObject(x)
             && forall j :: k < j < |DeclsOf(q, {})| ==> DeclsOf(q, {})[j].id != GlobalObject(x)
    ensures var q := p + [Reader(f, params, Plain(Src(x)))];
            var out := HandleItems(Empty, cmds, q).1;
            && |out| == |q| && k < |DefsOf(out)|
            && var d, ignored := DefsOf(out)[k].d, x in cmds && cmds[x] == Ignored;
               && (ignored ==> out[|p|] == Reader(f, params, Plain(Src(x))))
               && (!ignored && HasInstanceEach(DeclsOf(q, {}), k, cmds) ==>
                     d.shape.Expanded? && out[|p|] == Reader(f, params, Via(PtrArray(x, d.shape.n))))
               && (!ignored && !HasInstanceEach(DeclsOf(q, {}), k, cmds) ==>
                     out[|p|] == Reader(f, params, Slot(OldArray(x))))
  {
    var q := p + [Reader(f, params, Plain(Src(x)))];
    var out, lay := HandleItems(Empty, cmds, q).1, Layout(map[], {}, 0);
    var all, defs := DeclsOf(q, {}), DefsOf(out);
    ScopeProof.WalkIsResolution(cmds, q);
    FormsAre(q, cmds);
    WhichForm(q, cmds, k);
    DeclaredName(q, {}, k);
    assert [] + defs == defs;
    LastAlike(defs, all, cmds, k, x);
    ReaderResolved(q, f, params, x, map[], lay, cmds, FunctionNames(q), [], k);
  }

  lemma LastAlike(defs: seq<Definition>, all: seq<Declaration>, cmds: Commands, k: nat, x: string)
    requires Emits(defs, all, all, cmds) && k < |all| && all[k].id == GlobalObject(x)
    requires forall j :: k < j < |all| ==> all[j].id != GlobalObject(x)
    ensures IsLast(defs, k, x)
  {
    hide EmissionIn, IsCopied;
  }

  lemma {:induction false} DeclaredName(p: Program, structs: set<string>, i: nat)
    requires i < |DeclsOf(p, structs)| && DeclsOf(p, structs)[i].id.GlobalObject?
    ensures DeclsOf(p, structs)[i].id.x == DeclsOf(p, structs)[i].d.x
    decreases p
  {
    var here := DeclsOfItem(p[0], structs);
    if i >= |here| {
      DeclaredName(p[1..], StructsAfter(p[0], structs), i - |here|);
    } else if p[0].Function? {
      StmtsDeclareStatics(p[0].body, structs);
    }
  }

  lemma {:induction false} StmtsDeclareStatics(b: Stmts, structs: set<string>)
    ensures forall j :: 0 <= j < |DeclsOfStmts(b, structs)| ==> DeclsOfStmts(b, structs)[j].id.StaticObject?
    decreases b, 0
  {
    if b.Then? {
      StmtDeclaresStatics(b.first, structs);
      StmtsDeclareStatics(b.rest, structs);
    }
  }

  lemma {:induction false} StmtDeclaresStatics(s: Stmt, structs: set<string>)
    ensures forall j :: 0 <= j < |DeclsOfStmt(s, structs)| ==> DeclsOfStmt(s, structs)[j].id.StaticObject?
    decreases s, 1
  {
    match s
    case If(_, yes, no) =>
      StmtsDeclareStatics(yes, structs);
      StmtsDeclareStatics(no, structs);
    case While(_, body) => StmtsDeclareStatics(body, structs);
    case Block(body) => StmtsDeclareStatics(body, structs);
    case _ =>
  }
}
