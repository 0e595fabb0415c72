/**
  The globaliser at work (nsc-0.5.3/globaliser/node.cc, nsc-0.5.3/globaliser/handle_global.cc): the symbol table and the
  lists of live locals are pushed to and popped from as the walk goes.
*/
module HgrWalk {
  import opened Wrappers
  import opened CLang
  import G = Globaliser

  function Prepend(done: seq<Stmt>, rest: Stmts): Stmts {
    if done == [] then rest else Then(done[0], Prepend(done[1..], rest))
  }

  lemma {:induction false} PrependOne(done: seq<Stmt>, s: Stmt, rest: Stmts)
    ensures Prepend(done + [s], rest) == Prepend(done, Then(s, rest))
  {
    if done != [] {
      PrependOne(done[1..], s, rest);
      assert (done + [s])[1..] == done[1..] + [s];
    }
  }

  /** One variable of an automatic declaration, and the rest. */
  lemma {:induction false} AutosFrom(t: G.Tables, cmds: G.Commands, defs: seq<AutoVar>, i: nat, done: seq<AutoVar>)
    requires i <= |defs|
    ensures i == |defs| ==> G.HgrAutos(t, cmds, defs[i..]) == (t, []) && done + [] == done
    ensures i < |defs| ==>
              var r := G.HgrAutos(G.CheckInit(t, cmds, defs[i].init, false), cmds, defs[i + 1..]);
              G.HgrAutos(t, cmds, defs[i..]) == (r.0, [G.HgrAuto(t, cmds, defs[i])] + r.1)
              && done + ([G.HgrAuto(t, cmds, defs[i])] + r.1) == done + [G.HgrAuto(t, cmds, defs[i])] + r.1
  {
    if i < |defs| {
      assert defs[i..][1..] == defs[i + 1..];
    }
  }

  /** One statement of a list, and the rest. */
  lemma StmtsFrom(t: G.Tables, cmds: G.Commands, b: Stmts, numLocals: nat, numStatics: nat, done: seq<Stmt>)
    requires b.Then?
    ensures var (t1, s1, locals, statics) := G.HgrStep(t, cmds, b.first, numStatics);
            var r := G.HgrStmts(t1, cmds, b.rest, numLocals + locals, statics);
            var all := G.HgrStmts(t, cmds, b, numLocals, numStatics);
            all.0 == r.0 && Prepend(done, all.1) == Prepend(done + [s1], r.1)
  {
    hide G.HgrStep;
    var (t1, s1, locals, statics) := G.HgrStep(t, cmds, b.first, numStatics);
    PrependOne(done, s1, G.HgrStmts(t1, cmds, b.rest, numLocals + locals, statics).1);
  }

  /** One declaration of the file, and the rest. */
  lemma {:induction false} ItemsFrom(t: G.Tables, cmds: G.Commands, p: Program, i: nat, done: Program)
    requires i <= |p|
    ensures i == |p| ==> G.HandleItems(t, cmds, p[i..]) == (t, []) && done + [] == done
    ensures i < |p| ==>
              var (t1, item) := G.HandleItem(t, cmds, p[i]);
              var r := G.HandleItems(t1, cmds, p[i + 1..]);
              G.HandleItems(t, cmds, p[i..]) == (r.0, [item] + r.1) && done + ([item] + r.1) == done + [item] + r.1
  {
    if i < |p| {
      assert p[i..][1..] == p[i + 1..];
    }
  }

  /** The most recent record with a mangled name, searched for from the end. */
  method FindMangled(rs: seq<G.Symbol>) returns (r: Option<G.Symbol>)
    ensures r == G.Latest(rs)
  {
    var i := |rs|;
    assert rs[..i] == rs;
    while i > 0
      invariant 0 <= i <= |rs| && G.Latest(rs[..i]) == G.Latest(rs)
    {
      assert rs[..i][..i - 1] == rs[..i - 1];
      if rs[i - 1].mangled.Some? {
        return Some(rs[i - 1]);
      }
      i := i - 1;
    }
    return None;
  }

  class Walker {
    const cmds: G.Commands
    var symbols: map<string, seq<G.Symbol>>
    var structs: set<string>
    var arrays: nat
    var locals: seq<string>
    var statics: seq<string>
    var failed: bool

    ghost function Tables(): G.Tables
      reads this
    {
      G.Tables(symbols, structs, arrays, locals, statics, failed)
    }

    constructor (cmds: G.Commands)
      ensures this.cmds == cmds && Tables() == G.Empty
    {
      this.cmds := cmds;
      symbols, structs, arrays, locals, statics, failed := map[], {}, 0, [], [], false;
    }

    method PushSymbol(x: string, s: G.Symbol)
      modifies `symbols
      ensures Tables() == G.Push(old(Tables()), x, s)
    {
      symbols := symbols[x := (if x in symbols then symbols[x] else []) + [s]];
    }

    method Undefine(x: string)
      modifies `symbols, `failed
      ensures Tables() == G.Undefine(old(Tables()), x)
    {
      if x in symbols && symbols[x] != [] {
        symbols := symbols[x := symbols[x][..|symbols[x]| - 1]];
      } else {
        failed := true;
      }
    }

    // ---------------------------------------------------------------- references

    /** An identifier of an expression; bad when the globaliser must give up. */
    method Identifier(x: string, toplevel: bool) returns (r: Ref, bad: bool)
      ensures r == G.LeafRef(Tables(), cmds, x, toplevel) && bad == G.LeafFails(Tables(), cmds, x, toplevel)
    {
      r, bad := Plain(Src(x)), false;
      var rs := if x in symbols then symbols[x] else [];
      if x in locals || (rs != [] && rs[|rs| - 1].isFunction) {
        return;
      }
      if x !in statics && (rs == [] || !G.IsGlobal(cmds, x)) {
        return;
      }
      var m := FindMangled(rs);
      match m
      case None => bad := true;
      case Some(s) =>
        if toplevel {
          r := if s.isArray then Instance(x, 0) else Slot(s.mangled.value);
        } else {
          var expands := Expands(x, s.isPointer, s.isArray);
          r := if s.isArray || expands then Via(s.mangled.value) else Slot(s.mangled.value);
        }
    }

    method Expands(x: string, isPointer: bool, isArray: bool) returns (b: bool)
      ensures b == G.Expands(Tables(), cmds, x, isPointer, isArray)
    {
      if !isPointer && !isArray {
        var rs := if x in symbols then symbols[x] else [];
        if rs != [] && !rs[0].isFunction && rs[0].tag != "" && !rs[0].isPointer && rs[0].tag !in structs {
          return true;
        }
      }
      return G.Configured(cmds, x);
    }

    method HgrExpr(e: Expr, toplevel: bool) returns (r: Expr, bad: bool)
      ensures r == G.HgrExpr(Tables(), cmds, e, toplevel) && bad == G.Fails(Tables(), cmds, e, toplevel)
      decreases e
    {
      match e
      case Num(_) => r, bad := e, false;
      case Id(ref) =>
        if ref.Plain? && ref.name.Src? {
          var ref1;
          ref1, bad := Identifier(ref.name.x, toplevel);
          r := Id(ref1);
        } else {
          r, bad := e, false;
        }
      case Deref(a) =>
        var a1;
        a1, bad := HgrExpr(a, toplevel);
        r := Deref(a1);
      case Addr(a) =>
        var a1;
        a1, bad := HgrExpr(a, toplevel);
        r := Addr(a1);
      case Binary(op, a, b) =>
        var a1, badA := HgrExpr(a, toplevel);
        var b1, badB := HgrExpr(b, toplevel);
        r, bad := Binary(op, a1, b1), badA || badB;
    }
  
    // ---------------------------------------------------------------- definitions

    /** The initialiser is walked once and then copied for each stack. */
    method CopyInitialiser(init: Option<Expr>) returns (copies: Option<seq<Expr>>, bad: bool)
      ensures copies == G.Copies(Tables(), cmds, init)
      ensures bad == (init.Some? && G.Fails(Tables(), cmds, init.value, true))
    {
      match init
      case None => copies, bad := None, false;
      case Some(e) =>
        var walked;
        walked, bad := HgrExpr(e, true);
        var es := [];
        for stack := 0 to NUM_STACKS
          invariant |es| == stack
          invariant forall j :: 0 <= j < stack ==> es[j] == G.Instantiate(walked, j)
        {
          es := es + [G.Instantiate(walked, stack)];
        }
        assert es == seq(NUM_STACKS, j requires 0 <= j => G.Instantiate(walked, j));
        copies := Some(es);
    }

    method MakeOldDefinition(d: VarDef) returns (d1: VarDef)
      modifies `symbols, `failed
      ensures (Tables(), d1) == G.OldDefinition(old(Tables()), cmds, d)
    {
      PushSymbol(d.x, G.Symbol(false, "", d.kind.isPointer, false, Some(OldArray(d.x))));
      var copies, bad := CopyInitialiser(G.InitOf(d));
      failed := failed || bad;
      d1 := d.(shape := Slots(copies));
    }

    method MakeNewDefinition(d: VarDef) returns (d1: VarDef)
      modifies `symbols, `failed, `arrays
      ensures (Tables(), d1) == G.NewDefinition(old(Tables()), cmds, d)
    {
      var copies, bad := CopyInitialiser(G.InitOf(d));
      failed := failed || bad;
      d1 := d.(shape := Expanded(copies, arrays));
      arrays := arrays + 1;
      PushSymbol(d.x, G.Symbol(false, "", d.kind.isPointer, true, Some(PtrArray(d.x, arrays - 1))));
    }

    method HandleGlobal(d: VarDef, isStatic: bool) returns (d1: VarDef)
      modifies `symbols, `failed, `arrays, `statics
      ensures (Tables(), d1) == G.HandleGlobal(old(Tables()), cmds, d, isStatic)
    {
      d1 := d;
      if !G.NeedsGlobalising(cmds, d) {
        return;
      }
      if !isStatic && d.x in symbols && symbols[d.x] != [] && symbols[d.x][|symbols[d.x]| - 1].isFunction {
        failed := true;
        return;
      }
      PushSymbol(d.x, G.Symbol(false, d.kind.tag, d.kind.isPointer, false, None));
      if !isStatic && !G.IsGlobal(cmds, d.x) {
        match G.InitOf(d) {
          case None =>
          case Some(e) =>
            var walked, bad := HgrExpr(e, true);
            failed := failed || bad;
            d1 := d.(shape := Single(Some(G.Instantiate(walked, 0))));
        }
        return;
      }
      var expands := Expands(d.x, d.kind.isPointer, d.kind.isArray);
      if isStatic {
        statics := statics + [d.x];
      }
      if d.kind.isArray || expands {
        d1 := MakeNewDefinition(d);
      } else {
        d1 := MakeOldDefinition(d);
      }
    }

    // ---------------------------------------------------------------- statements

    method HgrAutos(defs: seq<AutoVar>) returns (r: seq<AutoVar>)
      modifies `failed
      ensures (Tables(), r) == G.HgrAutos(old(Tables()), cmds, defs)
    {
      r := [];
      ghost var start := Tables();
      assert defs[0..] == defs;
      hide G.HgrAutos;
      for i := 0 to |defs|
        invariant |r| == i
        invariant symbols == start.symbols && structs == start.structs && arrays == start.arrays
        invariant locals == start.locals && statics == start.statics
        invariant G.HgrAutos(start, cmds, defs).0 == G.HgrAutos(Tables(), cmds, defs[i..]).0
        invariant G.HgrAutos(start, cmds, defs).1 == r + G.HgrAutos(Tables(), cmds, defs[i..]).1
      {
        AutosFrom(Tables(), cmds, defs, i, r);
        var d := defs[i];
        if d.init.Some? {
          var e, bad := HgrExpr(d.init.value, false);
          failed := failed || bad;
          d := AutoVar(d.x, Some(e));
        }
        r := r + [d];
      }
      AutosFrom(Tables(), cmds, defs, |defs|, r);
    }

    method HgrStatic(d: VarDef) returns (d1: VarDef, n: nat)
      modifies `symbols, `failed, `arrays, `statics
      ensures (Tables(), d1, n) == G.HgrStatic(old(Tables()), cmds, d)
    {
      d1 := HandleGlobal(d, true);
      n := if G.NeedsGlobalising(cmds, d) then 1 else 0;
      if n == 0 && G.InitOf(d).Some? {
        var e, bad := HgrExpr(G.InitOf(d).value, false);
        failed := failed || bad;
        d1 := d.(shape := Single(Some(e)));
      }
    }

    /** At the end of a statement list its names go out of scope. */
    method PopLocals(numLocals: nat)
      modifies `locals
      ensures Tables() == G.PopLocals(old(Tables()), numLocals)
    {
      ghost var start := locals;
      var n := numLocals;
      while n > 0
        invariant 0 <= n <= numLocals
        invariant locals == start[..if numLocals - n <= |start| then |start| - (numLocals - n) else 0]
      {
        if locals != [] {
          locals := locals[..|locals| - 1];
        }
        n := n - 1;
      }
    }

    method PopStatics(numStatics: nat)
      modifies `symbols, `failed, `statics
      ensures Tables() == G.PopStatics(old(Tables()), numStatics)
    {
      ghost var start := Tables();
      var n := numStatics;
      while n > 0
        invariant G.PopStatics(Tables(), n) == G.PopStatics(start, numStatics)
      {
        if statics == [] {
          failed := true;
          return;
        }
        Undefine(statics[|statics| - 1]);
        statics := statics[..|statics| - 1];
        n := n - 1;
      }
    }

    method HgrExprs(es: seq<Expr>) returns (r: seq<Expr>, bad: bool)
      ensures r == G.HgrExprs(Tables(), cmds, es)
      ensures G.CheckAll(Tables(), cmds, es) == Tables().(failed := failed || bad)
      decreases es
    {
      if es == [] {
        r, bad := [], false;
      } else {
        var e, badE := HgrExpr(es[0], false);
        var rest;
        rest, bad := HgrExprs(es[1..]);
        CheckAllFails(Tables(), badE, cmds, es[1..]);
        r, bad := [e] + rest, badE || bad;
      }
    }

    /** A statement list is a scope: what it declares is popped at its end. */
    method HgrStmts(b: Stmts) returns (r: Stmts)
      modifies `symbols, `failed, `arrays, `statics, `locals
      ensures (Tables(), r) == G.HgrStmts(old(Tables()), cmds, b, 0, 0)
      decreases b, 1
    {
      var todo, done, numLocals, numStatics := b, [], 0, 0;
      ghost var start := Tables();
      hide G.HgrStmts, Prepend;
      while todo.Then?
        invariant todo == b || todo < b
        invariant G.HgrStmts(Tables(), cmds, todo, numLocals, numStatics).0 == G.HgrStmts(start, cmds, b, 0, 0).0
        invariant Prepend(done, G.HgrStmts(Tables(), cmds, todo, numLocals, numStatics).1)
               == Prepend([], G.HgrStmts(start, cmds, b, 0, 0).1)
        decreases todo
      {
        StmtsFrom(Tables(), cmds, todo, numLocals, numStatics, done);
        var s, locals, statics := HgrStep(todo.first, numStatics);
        done, numLocals, numStatics := done + [s], numLocals + locals, statics;
        todo := todo.rest;
      }
      ListEnds(Tables(), cmds, numLocals, numStatics, G.HgrStmts(start, cmds, b, 0, 0).1);
      PopLocals(numLocals);
      PopStatics(numStatics);
      r := Prepend(done, Done);
    }

    method HgrStep(s: Stmt, numStatics: nat) returns (s1: Stmt, locals: nat, statics: nat)
      modifies `symbols, `failed, `arrays, `statics, `locals
      ensures (Tables(), s1, locals, statics) == G.HgrStep(old(Tables()), cmds, s, numStatics)
      decreases s, 2
    {
      match s
      case Autos(defs) =>
        this.locals := this.locals + AutoNames(defs);
        var defs1 := HgrAutos(defs);
        s1, locals, statics := Autos(defs1), |defs|, numStatics;
      case Static(site, d) =>
        var d1, n := HgrStatic(d);
        s1, locals, statics := Static(site, d1), 0, n;
      case _ =>
        s1 := Hgr(s);
        locals, statics := 0, numStatics;
    }

    method Hgr(s: Stmt) returns (r: Stmt)
      modifies `symbols, `failed, `arrays, `statics, `locals
      ensures (Tables(), r) == G.Hgr(old(Tables()), cmds, s)
      decreases s, 1
    {
      match s
      case Assign(lhs, rhs) =>
        var lhs1, bad1 := HgrExpr(lhs, false);
        var rhs1, bad2 := HgrExpr(rhs, false);
        CheckTwice(Tables(), bad1, cmds, rhs);
        failed := failed || bad1 || bad2;
        r := Assign(lhs1, rhs1);
      case Call(lhs, f, args) =>
        var lhs1, bad1 := HgrExpr(lhs, false);
        var args1, bad2 := HgrExprs(args);
        CheckAllFails(Tables(), bad1, cmds, args);
        failed := failed || bad1 || bad2;
        r := Call(lhs1, f, args1);
      case If(c, yes, no) =>
        var c1, bad := HgrExpr(c, false);
        failed := failed || bad;
        var yes1 := HgrStmts(yes);
        var no1 := HgrStmts(no);
        r := If(c1, yes1, no1);
      case While(c, body) =>
        var c1, bad := HgrExpr(c, false);
        failed := failed || bad;
        var body1 := HgrStmts(body);
        r := While(c1, body1);
      case Block(body) =>
        var body1 := HgrStmts(body);
        r := Block(body1);
      case Return(e) =>
        var e1, bad := HgrExpr(e, false);
        failed := failed || bad;
        r := Return(e1);
      case _ => r := s;
    }

    // ---------------------------------------------------------------- the file

    method DefineFunction(f: string)
      modifies `symbols, `failed
      ensures Tables() == G.DefineFunction(old(Tables()), f)
    {
      if f in symbols && symbols[f] != [] {
        if !symbols[f][|symbols[f]| - 1].isFunction {
          failed := true;
        }
      } else {
        PushSymbol(f, G.Symbol(true, "", false, false, None));
      }
    }

    method HandleItem(item: Item) returns (r: Item)
      modifies this
      ensures (Tables(), r) == G.HandleItem(old(Tables()), cmds, item)
    {
      match item
      case Struct(tag) =>
        structs := structs + {tag};
        r := item;
      case Global(d) =>
        var d1 := HandleGlobal(d, false);
        r := Global(d1);
      case Function(f, params, body) =>
        DefineFunction(f);
        locals := locals + params;
        var body1 := HgrStmts(body);
        PopLocals(|params|);
        r := Function(f, params, body1);
    }

    /** The whole file. */
    method Globalise(p: Program) returns (r: Program)
      modifies this
      ensures (Tables(), r) == G.HandleItems(old(Tables()), cmds, p)
    {
      r := [];
      ghost var start := Tables();
      assert p[0..] == p;
      hide G.HandleItems;
      for i := 0 to |p|
        invariant |r| == i
        invariant G.HandleItems(start, cmds, p).0 == G.HandleItems(Tables(), cmds, p[i..]).0
        invariant G.HandleItems(start, cmds, p).1 == r + G.HandleItems(Tables(), cmds, p[i..]).1
      {
        ItemsFrom(Tables(), cmds, p, i, r);
        var item := HandleItem(p[i]);
        r := r + [item];
      }
      ItemsFrom(Tables(), cmds, p, |p|, r);
    }
  }

  lemma {:induction false} ListEnds(t: G.Tables, cmds: G.Commands, numLocals: nat, numStatics: nat, all: Stmts)
    ensures G.HgrStmts(t, cmds, Done, numLocals, numStatics) == (G.PopStatics(G.PopLocals(t, numLocals), numStatics), Done)
    ensures Prepend([], all) == all
  {
  }

  /** An earlier error changes nothing in how an expression is walked. */
  lemma {:induction false} SameLeaves(t: G.Tables, bad: bool, cmds: G.Commands, e: Expr, toplevel: bool)
    ensures var t1 := t.(failed := t.failed || bad);
            G.HgrExpr(t1, cmds, e, toplevel) == G.HgrExpr(t, cmds, e, toplevel)
            && G.Fails(t1, cmds, e, toplevel) == G.Fails(t, cmds, e, toplevel)
  {
    match e
    case Num(_) =>
    case Id(r) =>
    case Deref(a) => SameLeaves(t, bad, cmds, a, toplevel);
    case Addr(a) => SameLeaves(t, bad, cmds, a, toplevel);
    case Binary(_, a, b) =>
      SameLeaves(t, bad, cmds, a, toplevel);
      SameLeaves(t, bad, cmds, b, toplevel);
  }

  lemma CheckTwice(t: G.Tables, bad: bool, cmds: G.Commands, e: Expr)
    ensures var t1 := t.(failed := t.failed || bad);
            G.Check(t1, cmds, e, false) == t.(failed := t.failed || bad || G.Fails(t, cmds, e, false))
  {
    SameLeaves(t, bad, cmds, e, false);
  }

  lemma {:induction false} CheckAllFails(t: G.Tables, bad: bool, cmds: G.Commands, es: seq<Expr>)
    ensures var t1 := t.(failed := t.failed || bad);
            G.CheckAll(t1, cmds, es) == t.(failed := bad || G.CheckAll(t, cmds, es).failed)
    decreases es
  {
    if es != [] {
      SameLeaves(t, bad, cmds, es[0], false);
      var bad1 := G.Fails(t, cmds, es[0], false);
      CheckAllFails(t, bad || bad1, cmds, es[1..]);
      CheckAllFails(t, bad1, cmds, es[1..]);
    }
  }
}
