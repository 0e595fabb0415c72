/** A placement fits a rewritten program exactly if the program gives each object one form. */
module Placements {
  import opened Wrappers
  import opened CLang
  import opened Globaliser
  import opened Lexical
  import opened Preservation
  import opened Loading
  import opened Stacks
  import opened Forms
  import ScopeProof

  // ---------------------------------------------------------------- placed everywhere

  ghost predicate AllPlaced(defs: seq<Definition>, pl: Placement) {
    forall x :: x in defs ==> PlacedDef(x.id, x.d, pl)
  }

  lemma PlacedBoth(a: seq<Definition>, b: seq<Definition>, pl: Placement)
    ensures AllPlaced(a + b, pl) <==> AllPlaced(a, pl) && AllPlaced(b, pl)
  {
    assert forall x :: x in a || x in b ==> x in a + b;
  }

  lemma {:induction false} StmtsPlacedIff(b: Stmts, pl: Placement)
    ensures PlacedStmts(b, pl) <==> AllPlaced(DefsOfStmts(b), pl)
    decreases b, 0
  {
    if b.Then? {
      StmtPlacedIff(b.first, pl);
      StmtsPlacedIff(b.rest, pl);
      PlacedBoth(DefsOfStmt(b.first), DefsOfStmts(b.rest), pl);
    }
  }

  lemma {:induction false} StmtPlacedIff(s: Stmt, pl: Placement)
    ensures PlacedStmt(s, pl) <==> AllPlaced(DefsOfStmt(s), pl)
    decreases s, 1
  {
    match s
    case If(_, yes, no) =>
      StmtsPlacedIff(yes, pl);
      StmtsPlacedIff(no, pl);
      PlacedBoth(DefsOfStmts(yes), DefsOfStmts(no), pl);
    case While(_, body) => StmtsPlacedIff(body, pl);
    case Block(body) => StmtsPlacedIff(body, pl);
    case Static(site, d) =>
      assert Definition(StaticObject(site), d) in DefsOfStmt(s);
    case _ =>
  }

  lemma {:induction false} ItemsPlacedIff(p: Program, pl: Placement)
    ensures PlacedItems(p, pl) <==> AllPlaced(DefsOf(p), pl)
  {
    if p != [] {
      ItemsPlacedIff(p[1..], pl);
      PlacedBoth(DefsOfItem(p[0]), DefsOf(p[1..]), pl);
      match p[0] {
        case Struct(_) =>
        case Global(d) =>
          assert Definition(GlobalObject(d.x), d) in DefsOfItem(p[0]);
        case Function(_, _, body) => StmtsPlacedIff(body, pl);
      }
      assert PlacedItems(p, pl) <==> PlacedItem(p[0], pl) && PlacedItems(p[1..], pl);
    }
  }

  // ---------------------------------------------------------------- pointer arrays are numbered in order

  predicate Numbered(defs: seq<Definition>, lo: nat, hi: nat) {
    if defs == [] then lo == hi
    else if defs[0].d.shape.Expanded? then defs[0].d.shape.n == lo && Numbered(defs[1..], lo + 1, hi)
    else Numbered(defs[1..], lo, hi)
  }

  lemma {:induction false} NumberedBoth(a: seq<Definition>, b: seq<Definition>, lo: nat, mid: nat, hi: nat)
    requires Numbered(a, lo, mid) && Numbered(b, mid, hi)
    ensures Numbered(a + b, lo, hi)
  {
    if a == [] {
      assert a + b == b;
    } else {
      NumberedBoth(a[1..], b, if a[0].d.shape.Expanded? then lo + 1 else lo, mid, hi);
      assert (a + b)[1..] == a[1..] + b;
    }
  }

  lemma {:induction false} StmtsNumbered(b: Stmts, scope: Scope, lay: Layout, cmds: Commands, fns: set<string>,
                                         full: bool)
    requires SupportedStmts(b, scope, lay, cmds, fns, full)
    ensures var (b', lay1) := ResolveStmts(b, scope, lay, cmds); Numbered(DefsOfStmts(b'), lay.arrays, lay1.arrays)
    decreases b, 1
  {
    if b.Then? {
      var (s', scope1, lay1) := ResolveStep(b.first, scope, lay, cmds);
      StepNumbered(b.first, scope, lay, cmds, fns, full);
      StmtsNumbered(b.rest, scope1, lay1, cmds, fns, full || b.first.Static?);
      var (rest', lay2) := ResolveStmts(b.rest, scope1, lay1, cmds);
      NumberedBoth(DefsOfStmt(s'), DefsOfStmts(rest'), lay.arrays, lay1.arrays, lay2.arrays);
    }
  }

  lemma {:induction false} StepNumbered(s: Stmt, scope: Scope, lay: Layout, cmds: Commands, fns: set<string>,
                                        full: bool)
    requires SupportedStep(s, scope, lay, cmds, fns, full)
    ensures var (s', _, lay1) := ResolveStep(s, scope, lay, cmds); Numbered(DefsOfStmt(s'), lay.arrays, lay1.arrays)
    decreases s, 2
  {
    match s
    case Autos(_) =>
    case Static(site, d) =>
    case If(_, yes, no) =>
      StmtsNumbered(yes, scope, lay, cmds, fns, false);
      var (yes', lay1) := ResolveStmts(yes, scope, lay, cmds);
      StmtsNumbered(no, scope, lay1, cmds, fns, false);
      var (no', lay2) := ResolveStmts(no, scope, lay1, cmds);
      NumberedBoth(DefsOfStmts(yes'), DefsOfStmts(no'), lay.arrays, lay1.arrays, lay2.arrays);
    case While(_, body) => StmtsNumbered(body, scope, lay, cmds, fns, false);
    case Block(body) => StmtsNumbered(body, scope, lay, cmds, fns, false);
    case _ =>
  }

  lemma {:induction false} ItemsNumbered(p: Program, scope: Scope, lay: Layout, cmds: Commands, fns: set<string>)
    requires SupportedItems(p, scope, lay, cmds, fns)
    ensures Numbered(DefsOf(ResolveItems(p, scope, lay, cmds)), lay.arrays, EndOf(p, scope, lay, cmds).1.arrays)
    decreases p
  {
    if p != [] {
      var (item', scope1, lay1) := ResolveItem(p[0], scope, lay, cmds);
      match p[0] {
        case Struct(_) =>
        case Global(d) =>
        case Function(f, params, body) =>
          StmtsNumbered(body, Locals(scope[f := FunctionName], params), First(lay, f, Kind(false, false, "")), cmds, fns,
                        false);
      }
      ItemsNumbered(p[1..], scope1, lay1, cmds, fns);
      var p' := ResolveItems(p, scope, lay, cmds);
      assert p'[0] == item' && p'[1..] == ResolveItems(p[1..], scope1, lay1, cmds);
      NumberedBoth(DefsOfItem(item'), DefsOf(p'[1..]), lay.arrays, lay1.arrays, EndOf(p, scope, lay, cmds).1.arrays);
    }
  }

  // ---------------------------------------------------------------- the placement of a program

  function OwnersOf(defs: seq<Definition>): map<nat, ObjectId> {
    if defs == [] then map[]
    else if defs[0].d.shape.Expanded? then OwnersOf(defs[1..])[defs[0].d.shape.n := defs[0].id]
    else OwnersOf(defs[1..])
  }

  function PlacementOf(defs: seq<Definition>): Placement {
    Placement(set x | x in defs && x.d.shape.Single? :: x.id, set x | x in defs && x.d.shape.Expanded? :: x.id,
              OwnersOf(defs))
  }

  lemma {:induction false} OwnersFound(defs: seq<Definition>, lo: nat, hi: nat)
    requires Numbered(defs, lo, hi)
    ensures lo <= hi && forall n :: n in OwnersOf(defs) ==> lo <= n < hi
    ensures forall x :: x in defs && x.d.shape.Expanded? ==>
              x.d.shape.n in OwnersOf(defs) && OwnersOf(defs)[x.d.shape.n] == x.id
  {
    if defs != [] {
      OwnersFound(defs[1..], if defs[0].d.shape.Expanded? then lo + 1 else lo, hi);
      assert forall x :: x in defs ==> x == defs[0] || x in defs[1..];
    }
  }

  lemma {:induction false} PlacementFits(defs: seq<Definition>, hi: nat)
    requires Numbered(defs, 0, hi) && OneForm(defs)
    ensures AllPlaced(defs, PlacementOf(defs)) && forall n :: n in PlacementOf(defs).owner ==> n < hi
  {
    OwnersFound(defs, 0, hi);
    forall x | x in defs
      ensures PlacedDef(x.id, x.d, PlacementOf(defs))
    {
      assert forall y :: y in defs && y.id == x.id ==> SameForm(x.d, y.d) by {
        forall y | y in defs && y.id == x.id
          ensures SameForm(x.d, y.d)
        {
          var i :| 0 <= i < |defs| && defs[i] == x;
          var j :| 0 <= j < |defs| && defs[j] == y;
          assert i < j ==> SameForm(defs[i].d, defs[j].d);
          assert j < i ==> SameForm(defs[j].d, defs[i].d);
        }
      }
    }
  }

  /** The one condition of the main results that is not local to a declaration, and exactly when it can be met. */
  lemma {:induction false} PlacementExistsIff(p: Program, cmds: Commands)
    requires SupportedProgram(p, cmds)
    ensures (exists pl :: Fits(p, cmds, pl)) <==> DeclaredInOneForm(DeclsOf(p, {}), cmds)
    ensures OneForm(DefsOf(Globalised(p, cmds))) <==> DeclaredInOneForm(DeclsOf(p, {}), cmds)
    ensures OneForm(DefsOf(Globalised(p, cmds))) ==> Fits(p, cmds, PlacementOf(DefsOf(Globalised(p, cmds))))
  {
    var p' := Globalised(p, cmds);
    var defs := DefsOf(p');
    ScopeProof.WalkIsResolution(cmds, p);
    OneFormIff(p, cmds);
    ItemsNumbered(p, map[], NoLayout, cmds, FunctionNames(p));
    if OneForm(defs) {
      PlacementFits(defs, EndOf(p, map[], NoLayout, cmds).1.arrays);
      ItemsPlacedIff(p', PlacementOf(defs));
      assert Fits(p, cmds, PlacementOf(defs));
    }
    forall pl | Fits(p, cmds, pl)
      ensures OneForm(defs)
    {
      ItemsPlacedIff(p', pl);
      forall i, j | 0 <= i < j < |defs| && defs[i].id == defs[j].id
        ensures SameForm(defs[i].d, defs[j].d)
      {
        assert PlacedDef(defs[i].id, defs[i].d, pl) && PlacedDef(defs[j].id, defs[j].d, pl);
      }
    }
  }

  // ---------------------------------------------------------------- programs with two forms of one object

  function Variable(x: string, kind: Kind): Item {
    Global(VarDef(x, kind, Single(None)))
  }

  lemma {:induction false} PlainSupported(p: Program, scope: Scope, lay: Layout, cmds: Commands)
    requires forall i :: 0 <= i < |p| ==> p[i].Struct? || (p[i].Global? && p[i].d.shape == Single(None))
    ensures SupportedItems(p, scope, lay, cmds, {})
    decreases p
  {
    if p != [] {
      var (_, scope1, lay1) := ResolveItem(p[0], scope, lay, cmds);
      PlainSupported(p[1..], scope1, lay1, cmds);
    }
  }

  lemma {:induction false} NotPlaced(p: Program, cmds: Commands, i: nat, j: nat)
    requires forall i :: 0 <= i < |p| ==> p[i].Struct? || (p[i].Global? && p[i].d.shape == Single(None))
    requires var all := DeclsOf(p, {});
             i < j < |all| && all[i].id == all[j].id && EmissionIn(all, all[i], cmds) != EmissionIn(all, all[j], cmds)
    ensures SupportedProgram(p, cmds) && !exists pl :: Fits(p, cmds, pl)
  {
    PlainSupported(p, map[], Layout(map[], {}, 0), cmds);
    assert FunctionNames(p) == {};
    PlacementExistsIff(p, cmds);
  }

  /** `typedef int t[5]; extern t a; int a[5];`: an array of slots first, then instances. */
  lemma ArrayByTypedef()
    ensures var p := [Variable("a", Kind(false, false, "")), Variable("a", Kind(true, false, ""))];
            SupportedProgram(p, map[]) && !exists pl :: Fits(p, map[], pl)
  {
    var p := [Variable("a", Kind(false, false, "")), Variable("a", Kind(true, false, ""))];
    var id := GlobalObject("a");
    assert p[1..] == [p[1]] && p[1..][1..] == [];
    assert DeclsOf(p, {}) == [Declaration(id, p[0].d, {}), Declaration(id, p[1].d, {})];
    NotPlaced(p, map[], 0, 1);
  }

  /** `extern int a[]; int a[5];`: both are arrays, and the object can be placed. */
  lemma BoundAdded()
    ensures var p := [Variable("a", Kind(true, false, "")), Variable("a", Kind(true, false, ""))];
            SupportedProgram(p, map[]) && exists pl :: Fits(p, map[], pl)
  {
    var p := [Variable("a", Kind(true, false, "")), Variable("a", Kind(true, false, ""))];
    var id := GlobalObject("a");
    assert p[1..] == [p[1]] && p[1..][1..] == [];
    assert DeclsOf(p, {}) == [Declaration(id, p[0].d, {}), Declaration(id, p[1].d, {})];
    PlainSupported(p, map[], Layout(map[], {}, 0), map[]);
    assert FunctionNames(p) == {};
    PlacementExistsIff(p, map[]);
  }

  /** `extern struct s x; struct s { ... }; struct s x;`: instances first, then an array of slots. */
  lemma StructAdded()
    ensures var k := Kind(false, false, "s");
            var p := [Variable("x", k), Struct("s"), Variable("x", k)];
            SupportedProgram(p, map[]) && !exists pl :: Fits(p, map[], pl)
  {
    var k := Kind(false, false, "s");
    var p := [Variable("x", k), Struct("s"), Variable("x", k)];
    var id := GlobalObject("x");
    assert p[1..] == [p[1], p[2]] && p[1..][1..] == [p[2]] && [p[2]][1..] == [];
    assert DeclsOf([p[2]], {"s"}) == [Declaration(id, p[2].d, {"s"})];
    assert [p[1], p[2]][1..] == [p[2]] && StructsAfter(p[1], {}) == {"s"};
    assert DeclsOf([p[1], p[2]], {}) == [Declaration(id, p[2].d, {"s"})];
    assert DeclsOf(p, {}) == [Declaration(id, p[0].d, {}), Declaration(id, p[2].d, {"s"})];
    NotPlaced(p, map[], 0, 1);
  }
}
