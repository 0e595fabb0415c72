/**
  Where the walk of the globaliser departs from C: for each condition that its correctness needs, exactly when the walk
  does what C says, and a program on which it does not.
*/
module SideConditions {
  import opened Wrappers
  import opened CLang
  import opened Globaliser
  import opened Lexical
  import opened ScopeProof
  import opened Forms

  // ---------------------------------------------------------------- one static declaration per scope

  /** No block has a static declaration after one that was rewritten; full is whether this block has had one. */
  predicate OneStatic(b: Stmts, cmds: Commands, full: bool)
    decreases b, 1
  {
    b.Then? ==>
      && (if b.first.Static? then !full else OneStaticIn(b.first, cmds))
      && OneStatic(b.rest, cmds, FullAfter(b.first, cmds, full))
  }

  predicate FullAfter(s: Stmt, cmds: Commands, full: bool) {
    if s.Static? then NeedsGlobalising(cmds, s.d) else full
  }

  predicate OneStaticIn(s: Stmt, cmds: Commands)
    decreases s, 1
  {
    match s
    case If(_, yes, no) => OneStatic(yes, cmds, false) && OneStatic(no, cmds, false)
    case While(_, body) => OneStatic(body, cmds, false)
    case Block(body) => OneStatic(body, cmds, false)
    case _ => true
  }

  /** The lists of live names, apart from the pending pops. */
  predicate Restores(t: Tables, t1: Tables, numLocals: nat, numStatics: nat, exactly: bool)
    requires numLocals <= |t.locals| && numStatics <= |t.statics|
  {
    && t1.locals == t.locals[..|t.locals| - numLocals]
    && t.statics[..|t.statics| - numStatics] <= t1.statics
    && (exactly <==> |t1.statics| == |t.statics| - numStatics)
  }

  lemma {:induction false} AutosKeepLists(t: Tables, cmds: Commands, defs: seq<AutoVar>)
    ensures HgrAutos(t, cmds, defs).0.locals == t.locals && HgrAutos(t, cmds, defs).0.statics == t.statics
    decreases defs
  {
    if defs != [] {
      AutosKeepLists(CheckInit(t, cmds, defs[0].init, false), cmds, defs[1..]);
    }
  }

  lemma {:induction false} ChecksKeepLists(t: Tables, cmds: Commands, es: seq<Expr>)
    ensures CheckAll(t, cmds, es).locals == t.locals && CheckAll(t, cmds, es).statics == t.statics
    decreases es
  {
    if es != [] {
      ChecksKeepLists(Check(t, cmds, es[0], false), cmds, es[1..]);
    }
  }

  lemma DefinitionPushes(t: Tables, cmds: Commands, d: VarDef, form: Form)
    requires form.New? ==> form.n == t.arrays
    ensures var u := if form.Old? then OldDefinition(t, cmds, d).0 else NewDefinition(t, cmds, d).0;
            && u.symbols == t.symbols[d.x := Records(t, d.x) + [MangledSymbol(d, form)]]
            && u.locals == t.locals && u.statics == t.statics
  {
  }

  /** A static declaration that is rewritten pushes two records and one name. */
  lemma StaticPushes(t: Tables, cmds: Commands, d: VarDef) returns (m: Symbol)
    requires NeedsGlobalising(cmds, d)
    ensures m.mangled.Some? && !m.isFunction
    ensures var (u, _, n) := HgrStatic(t, cmds, d);
            && u.symbols == t.symbols[d.x := Records(t, d.x) + [DeclaredSymbol(d)] + [m]]
            && u.locals == t.locals && u.statics == t.statics + [d.x] && n == 1
  {
    var t1 := Push(t, d.x, DeclaredSymbol(d));
    var form := if d.kind.isArray || Expands(t1, cmds, d.x, d.kind.isPointer, d.kind.isArray) then New(t.arrays) else Old;
    DefinitionPushes(Declared(t, d, true), cmds, d, form);
    m := MangledSymbol(d, form);
    hide OldDefinition, NewDefinition;
  }

  lemma StaticIdle(t: Tables, cmds: Commands, d: VarDef)
    requires !NeedsGlobalising(cmds, d)
    ensures var (u, _, n) := HgrStatic(t, cmds, d);
            u.symbols == t.symbols && u.locals == t.locals && u.statics == t.statics && n == 0
  {
  }

  /** One statement of a list, with what it adds to the pending pops. */
  ghost predicate StepRestores(t: Tables, u: Tables, numLocals: nat, locals: nat, numStatics: nat, statics: nat,
                               exactly: bool)
    requires numLocals <= |t.locals| && numStatics <= |t.statics|
  {
    && numLocals + locals <= |u.locals| && statics <= |u.statics| && statics <= 1
    && u.locals[..|u.locals| - (numLocals + locals)] == t.locals[..|t.locals| - numLocals]
    && t.statics[..|t.statics| - numStatics] <= u.statics[..|u.statics| - statics]
    && (exactly <==> |u.statics| - statics == |t.statics| - numStatics)
  }

  lemma StaticLists(t: Tables, cmds: Commands, d: VarDef)
    ensures var (u, _, n) := HgrStatic(t, cmds, d);
            && u.locals == t.locals && n <= |u.statics| && u.statics[..|u.statics| - n] == t.statics
            && n == if NeedsGlobalising(cmds, d) then 1 else 0
  {
    if NeedsGlobalising(cmds, d) {
      var m := StaticPushes(t, cmds, d);
    } else {
      StaticIdle(t, cmds, d);
    }
  }

  lemma {:induction false} AutosStepKeeps(t: Tables, cmds: Commands, s: Stmt, numLocals: nat, numStatics: nat)
    requires numLocals <= |t.locals| && numStatics <= |t.statics| && numStatics <= 1 && s.Autos?
    ensures var (u, _, locals, statics) := HgrStep(t, cmds, s, numStatics);
            && StepRestores(t, u, numLocals, locals, numStatics, statics,
                            if s.Static? then !(numStatics == 1) else OneStaticIn(s, cmds))
            && (statics == 1 <==> FullAfter(s, cmds, numStatics == 1))
  {
    var u := t.(locals := t.locals + AutoNames(s.defs));
    AutosKeepLists(u, cmds, s.defs);
    hide HgrAutos;
    assert u.locals[..|u.locals| - (numLocals + |s.defs|)] == t.locals[..|t.locals| - numLocals];
  }

  lemma {:induction false} StaticStepKeeps(t: Tables, cmds: Commands, s: Stmt, numLocals: nat, numStatics: nat)
    requires numLocals <= |t.locals| && numStatics <= |t.statics| && numStatics <= 1 && s.Static?
    ensures var (u, _, locals, statics) := HgrStep(t, cmds, s, numStatics);
            && StepRestores(t, u, numLocals, locals, numStatics, statics,
                            if s.Static? then !(numStatics == 1) else OneStaticIn(s, cmds))
            && (statics == 1 <==> FullAfter(s, cmds, numStatics == 1))
  {
    StaticLists(t, cmds, s.d);
    hide HgrStatic;
  }

  lemma {:induction false} StepKeeps(t: Tables, cmds: Commands, s: Stmt, numLocals: nat, numStatics: nat)
    requires numLocals <= |t.locals| && numStatics <= |t.statics| && numStatics <= 1
    ensures var (u, _, locals, statics) := HgrStep(t, cmds, s, numStatics);
            && StepRestores(t, u, numLocals, locals, numStatics, statics,
                            if s.Static? then !(numStatics == 1) else OneStaticIn(s, cmds))
            && (statics == 1 <==> FullAfter(s, cmds, numStatics == 1))
    decreases s, 2
  {
    if s.Autos? {
      AutosStepKeeps(t, cmds, s, numLocals, numStatics);
    } else if s.Static? {
      StaticStepKeeps(t, cmds, s, numLocals, numStatics);
    } else {
      var u := Hgr(t, cmds, s).0;
      StmtRestores(t, cmds, s, u);
      KeptWhole(t, u, numLocals, numStatics, OneStaticIn(s, cmds));
      hide OneStaticIn, Hgr, Restores, StepRestores;
    }
  }

  lemma {:induction false} KeptWhole(t: Tables, u: Tables, numLocals: nat, numStatics: nat, exactly: bool)
    requires numLocals <= |t.locals| && numStatics <= |t.statics| && numStatics <= 1
    requires Restores(t, u, 0, 0, exactly)
    ensures StepRestores(t, u, numLocals, 0, numStatics, numStatics, exactly)
  {
    assert t.statics[..|t.statics| - numStatics] <= u.statics[..|u.statics| - numStatics];
  }

  lemma {:induction false} PopKeeps(t: Tables, numLocals: nat, numStatics: nat)
    requires numLocals <= |t.locals| && numStatics <= |t.statics| && numStatics <= 1
    ensures Restores(t, PopStatics(PopLocals(t, numLocals), numStatics), numLocals, numStatics, true)
  {
    if numStatics == 1 {
      var u, last := PopLocals(t, numLocals), |t.statics| - 1;
      assert PopStatics(u, 1) == PopStatics(Undefine(u, u.statics[last]).(statics := u.statics[..last]), 0);
    }
  }

  /** The first statement of a list, and what the rest of the list makes of it. */
  lemma {:induction false} StepOf(t: Tables, cmds: Commands, s: Stmt, rest: Stmts, numLocals: nat, numStatics: nat,
                                  t1: Tables) returns (u: Tables, locals: nat, statics: nat)
    requires numLocals <= |t.locals| && numStatics <= |t.statics| && numStatics <= 1
    requires t1 == HgrStmts(t, cmds, Then(s, rest), numLocals, numStatics).0
    ensures numLocals + locals <= |u.locals| && statics <= |u.statics| && statics <= 1
    ensures StepRestores(t, u, numLocals, locals, numStatics, statics,
                         if s.Static? then !(numStatics == 1) else OneStaticIn(s, cmds))
    ensures t1 == HgrStmts(u, cmds, rest, numLocals + locals, statics).0
    ensures OneStatic(Then(s, rest), cmds, numStatics == 1)
       <==> (if s.Static? then !(numStatics == 1) else OneStaticIn(s, cmds)) && OneStatic(rest, cmds, statics == 1)
    decreases Then(s, rest), 0
  {
    StepKeeps(t, cmds, s, numLocals, numStatics);
    var step := HgrStep(t, cmds, s, numStatics);
    u, locals, statics := step.0, step.2, step.3;
    hide HgrStep, OneStaticIn, FullAfter;
  }

  lemma {:induction false} ListRestores(t: Tables, cmds: Commands, b: Stmts, numLocals: nat, numStatics: nat,
                                        t1: Tables)
    requires numLocals <= |t.locals| && numStatics <= |t.statics| && numStatics <= 1
    requires t1 == HgrStmts(t, cmds, b, numLocals, numStatics).0
    ensures Restores(t, t1, numLocals, numStatics, OneStatic(b, cmds, numStatics == 1))
    decreases b, 1
  {
    match b
    case Done => PopKeeps(t, numLocals, numStatics);
    case Then(s, rest) =>
      var u, locals, statics := StepOf(t, cmds, s, rest, numLocals, numStatics, t1);
      hide *;
      ListRestores(u, cmds, rest, numLocals + locals, statics, t1);
      var here := if s.Static? then !(numStatics == 1) else OneStaticIn(s, cmds);
      Restored(t, u, t1, numLocals, locals, numStatics, statics, here, OneStatic(rest, cmds, statics == 1));
  }

  lemma Restored(t: Tables, u: Tables, t1: Tables, numLocals: nat, locals: nat, numStatics: nat, statics: nat,
                 here: bool,
                 later: bool)
    requires numLocals <= |t.locals| && numStatics <= |t.statics|
    requires StepRestores(t, u, numLocals, locals, numStatics, statics, here)
    requires Restores(u, t1, numLocals + locals, statics, later)
    ensures Restores(t, t1, numLocals, numStatics, here && later)
  {
  }

  lemma {:induction false} StmtRestores(t: Tables, cmds: Commands, s: Stmt, t1: Tables)
    requires t1 == Hgr(t, cmds, s).0
    ensures Restores(t, t1, 0, 0, OneStaticIn(s, cmds))
    decreases s, 1
  {
    match s
    case Call(lhs, f, args) => ChecksKeepLists(Check(t, cmds, lhs, false), cmds, args);
    case If(c, yes, no) =>
      var u := Check(t, cmds, c, false);
      var u1 := HgrStmts(u, cmds, yes, 0, 0).0;
      ListRestores(u, cmds, yes, 0, 0, u1);
      ListRestores(u1, cmds, no, 0, 0, t1);
    case While(c, body) => ListRestores(Check(t, cmds, c, false), cmds, body, 0, 0, t1);
    case Block(body) => ListRestores(t, cmds, body, 0, 0, t1);
    case _ =>
  }

  /** The count of static locals is assigned, not added to: the lists are restored exactly if there is one per scope. */
  lemma {:induction false} ListsRestoredIff(t: Tables, cmds: Commands, b: Stmts)
    ensures HgrStmts(t, cmds, b, 0, 0).0.locals == t.locals
    ensures HgrStmts(t, cmds, b, 0, 0).0.statics == t.statics <==> OneStatic(b, cmds, false)
  {
    ListRestores(t, cmds, b, 0, 0, HgrStmts(t, cmds, b, 0, 0).0);
  }

  // ---------------------------------------------------------------- no static local inside one of the same name

  /** Whether a static local named x is declared in these statements. */
  predicate Declares(b: Stmts, cmds: Commands, x: string)
    decreases b, 1
  {
    b.Then? && (DeclaresIn(b.first, cmds, x) || Declares(b.rest, cmds, x))
  }

  predicate DeclaresIn(s: Stmt, cmds: Commands, x: string)
    decreases s, 1
  {
    match s
    case Static(_, d) => d.x == x && NeedsGlobalising(cmds, d)
    case If(_, yes, no) => Declares(yes, cmds, x) || Declares(no, cmds, x)
    case While(_, body) => Declares(body, cmds, x)
    case Block(body) => Declares(body, cmds, x)
    case _ => false
  }

  /** Whether one is declared in the scope of another. */
  predicate Nests(b: Stmts, cmds: Commands, x: string)
    decreases b, 1
  {
    b.Then? &&
    (|| NestsIn(b.first, cmds, x) || Nests(b.rest, cmds, x)
     || (b.first.Static? && DeclaresIn(b.first, cmds, x) && Declares(b.rest, cmds, x)))
  }

  predicate NestsIn(s: Stmt, cmds: Commands, x: string)
    decreases s, 1
  {
    match s
    case If(_, yes, no) => Nests(yes, cmds, x) || Nests(no, cmds, x)
    case While(_, body) => Nests(body, cmds, x)
    case Block(body) => Nests(body, cmds, x)
    case _ => false
  }

  /** The records that a lookup can find. */
  function Mangled(rs: seq<Symbol>): seq<Symbol> {
    if rs == [] then [] else
    Mangled(rs[..|rs| - 1]) + if rs[|rs| - 1].mangled.Some? then [rs[|rs| - 1]] else []
  }

  lemma {:induction false} MangledOfPush(rs: seq<Symbol>, s: Symbol)
    ensures Mangled(rs + [s]) == Mangled(rs) + if s.mangled.Some? then [s] else []
  {
    assert (rs + [s])[..|rs|] == rs;
  }

  lemma {:induction false} MangledGrows(before: seq<Symbol>, after: seq<Symbol>)
    requires before <= after
    ensures Mangled(before) <= Mangled(after)
    decreases after
  {
    if |before| < |after| {
      MangledGrows(before, after[..|after| - 1]);
    } else {
      assert before == after;
    }
  }

  /** What statements leave among the records of x, when no scope of x is open around them. */
  ghost predicate LeavesRecords(before: seq<Symbol>, after: seq<Symbol>, declares: bool, nests: bool) {
    && before <= after && (|after| == |before| <==> !declares) && (Mangled(after) == Mangled(before) <==> !nests)
  }

  /** And when one is, whose last record is yet to be popped. */
  ghost predicate LeavesOpen(before: seq<Symbol>, after: seq<Symbol>, declares: bool) {
    before != [] && if declares then before <= after else after == before[..|before| - 1]
  }

  predicate Pending(t: Tables, numStatics: nat, x: string) {
    numStatics == 1 && t.statics != [] && t.statics[|t.statics| - 1] == x
  }

  lemma StaticRecords(t: Tables, cmds: Commands, d: VarDef, x: string)
    ensures var u := HgrStatic(t, cmds, d).0;
            if d.x == x && NeedsGlobalising(cmds, d) then
              Opens(Records(t, x), Records(u, x))
            else Records(u, x) == Records(t, x)
  {
    hide HgrStatic;
    if NeedsGlobalising(cmds, d) {
      var u, rs, d1 := HgrStatic(t, cmds, d).0, Records(t, d.x), DeclaredSymbol(d);
      var m1 := StaticPushes(t, cmds, d);
      assert Records(u, d.x)[..|rs| + 1] == rs + [d1];
      MangledOfPush(rs, d1);
      MangledOfPush(rs + [d1], m1);
    } else {
      StaticIdle(t, cmds, d);
    }
  }

  lemma {:induction false} ListRecords(t: Tables, cmds: Commands, b: Stmts, numLocals: nat, numStatics: nat, x: string,
                                       t1: Tables)
    requires numLocals <= |t.locals| && numStatics <= |t.statics| && numStatics <= 1
    requires OneStatic(b, cmds, numStatics == 1) && t1 == HgrStmts(t, cmds, b, numLocals, numStatics).0
    requires Pending(t, numStatics, x) ==> Records(t, x) != []
    ensures ListLeaves(Pending(t, numStatics, x), Records(t, x), Records(t1, x), Declares(b, cmds, x), Nests(b, cmds, x))
    decreases b, 1
  {
    match b
    case Done => PopRecords(t, numLocals, numStatics, x);
    case Then(s, rest) =>
      StepKeeps(t, cmds, s, numLocals, numStatics);
      StepRecords(t, cmds, s, numLocals, numStatics, x);
      var (u, _, locals, statics) := HgrStep(t, cmds, s, numStatics);
      OpensSome(Records(t, x), Records(u, x), Pending(t, numStatics, x), Pending(u, statics, x),
                s.Static? && DeclaresIn(s, cmds, x), DeclaresIn(s, cmds, x), NestsIn(s, cmds, x));
      assert OneStatic(rest, cmds, statics == 1);
      hide Pending, HgrStep, DeclaresIn, NestsIn, Mangled, Records, ListLeaves, StepLeaves, OneStatic, OneStaticIn;
      hide StepRestores, FullAfter;
      ListRecords(u, cmds, rest, numLocals + locals, statics, x, t1);
      NestsDeclares(rest, cmds, x);
      Together(Records(t, x), Records(u, x), Records(t1, x), Pending(t, numStatics, x), Pending(u, statics, x),
               s.Static? && DeclaresIn(s, cmds, x), DeclaresIn(s, cmds, x), NestsIn(s, cmds, x), Declares(rest, cmds, x),
               Nests(rest, cmds, x));
  }

  lemma {:induction false} NestsDeclares(b: Stmts, cmds: Commands, x: string)
    ensures Nests(b, cmds, x) ==> Declares(b, cmds, x)
    decreases b, 1
  {
    if b.Then? {
      NestsDeclares(b.rest, cmds, x);
      NestsInDeclares(b.first, cmds, x);
    }
  }

  lemma {:induction false} NestsInDeclares(s: Stmt, cmds: Commands, x: string)
    ensures NestsIn(s, cmds, x) ==> DeclaresIn(s, cmds, x)
    decreases s, 1
  {
    match s
    case If(_, yes, no) =>
      NestsDeclares(yes, cmds, x);
      NestsDeclares(no, cmds, x);
    case While(_, body) => NestsDeclares(body, cmds, x);
    case Block(body) => NestsDeclares(body, cmds, x);
    case _ =>
  }

  /** A declaration of x has pushed its two records. */
  ghost predicate Opens(before: seq<Symbol>, after: seq<Symbol>) {
    && |after| == |before| + 2 && before <= after && Mangled(after[..|before| + 1]) == Mangled(before)
    && |Mangled(after)| == |Mangled(before)| + 1
  }

  ghost predicate ListLeaves(open: bool, before: seq<Symbol>, after: seq<Symbol>, declares: bool, nests: bool) {
    if open then LeavesOpen(before, after, declares) else LeavesRecords(before, after, declares, nests)
  }

  /** What one statement leaves; opens is whether it declares x itself. */
  ghost predicate StepLeaves(before: seq<Symbol>, after: seq<Symbol>, open: bool, openAfter: bool, opens: bool,
                             declares: bool, nests: bool) {
    if opens then openAfter && !open && Opens(before, after) && declares && !nests
    else openAfter == open && LeavesRecords(before, after, declares, nests)
  }

  lemma OpensSome(r: seq<Symbol>, s: seq<Symbol>, open: bool, openAfter: bool, opens: bool, declares: bool, nests: bool)
    requires StepLeaves(r, s, open, openAfter, opens, declares, nests) && (open ==> r != [])
    ensures openAfter ==> s != []
  {
  }

  /** What a statement and the rest of its list leave. */
  lemma Together(r: seq<Symbol>, s: seq<Symbol>, t: seq<Symbol>, open: bool, openAfter: bool, opens: bool,
                 declaresHere: bool, nestsHere: bool, declaresLater: bool, nestsLater: bool)
    requires StepLeaves(r, s, open, openAfter, opens, declaresHere, nestsHere)
    requires ListLeaves(openAfter, s, t, declaresLater, nestsLater)
    requires (nestsLater ==> declaresLater) && (open ==> r != [])
    ensures ListLeaves(open, r, t, declaresHere || declaresLater,
                       nestsHere || nestsLater || (opens && declaresLater))
  {
    RecordsTogether(r, s, t);
  }

  lemma {:induction false} RecordsTogether(a: seq<Symbol>, b: seq<Symbol>, c: seq<Symbol>)
    ensures a <= b <= c ==> Mangled(a) <= Mangled(b) <= Mangled(c)
    ensures a <= b && |b| > |a| ==> a <= b[..|b| - 1] && Mangled(a) <= Mangled(b[..|b| - 1])
  {
    if a <= b <= c {
      MangledGrows(a, b);
      MangledGrows(b, c);
    }
    if a <= b && |b| > |a| {
      MangledGrows(a, b[..|b| - 1]);
    }
  }

  lemma {:induction false} PopRecords(t: Tables, numLocals: nat, numStatics: nat, x: string)
    requires numLocals <= |t.locals| && numStatics <= |t.statics| && numStatics <= 1
    requires Pending(t, numStatics, x) ==> Records(t, x) != []
    ensures Records(PopStatics(PopLocals(t, numLocals), numStatics), x)
         == if Pending(t, numStatics, x) then Records(t, x)[..|Records(t, x)| - 1] else Records(t, x)
  {
    if numStatics == 1 {
      var u, last := PopLocals(t, numLocals), |t.statics| - 1;
      assert PopStatics(u, 1) == PopStatics(Undefine(u, u.statics[last]).(statics := u.statics[..last]), 0);
    }
  }

  lemma {:induction false} AutosKeepRecords(t: Tables, cmds: Commands, defs: seq<AutoVar>)
    ensures HgrAutos(t, cmds, defs).0.symbols == t.symbols
    decreases defs
  {
    if defs != [] {
      AutosKeepRecords(CheckInit(t, cmds, defs[0].init, false), cmds, defs[1..]);
    }
  }

  lemma {:induction false} ChecksKeepRecords(t: Tables, cmds: Commands, es: seq<Expr>)
    ensures CheckAll(t, cmds, es).symbols == t.symbols
    decreases es
  {
    if es != [] {
      ChecksKeepRecords(Check(t, cmds, es[0], false), cmds, es[1..]);
    }
  }

  lemma {:induction false} StepRecords(t: Tables, cmds: Commands, s: Stmt, numLocals: nat, numStatics: nat, x: string)
    requires numLocals <= |t.locals| && numStatics <= |t.statics| && numStatics <= 1
    requires if s.Static? then numStatics == 0 else OneStaticIn(s, cmds)
    ensures var (u, _, locals, statics) := HgrStep(t, cmds, s, numStatics);
            StepLeaves(Records(t, x), Records(u, x), Pending(t, numStatics, x), Pending(u, statics, x),
                       s.Static? && DeclaresIn(s, cmds, x), DeclaresIn(s, cmds, x), NestsIn(s, cmds, x))
    decreases s, 2
  {
    hide Mangled, HgrStmts, HandleGlobal;
    match s
    case Autos(defs) =>
      AutosKeepRecords(t.(locals := t.locals + AutoNames(defs)), cmds, defs);
      AutosKeepLists(t.(locals := t.locals + AutoNames(defs)), cmds, defs);
    case Static(_, d) =>
      StaticRecords(t, cmds, d, x);
      StaticLists(t, cmds, d);
      if NeedsGlobalising(cmds, d) {
        var m := StaticPushes(t, cmds, d);
      }
    case _ =>
      StmtRestores(t, cmds, s, Hgr(t, cmds, s).0);
      StmtRecords(t, cmds, s, x, Hgr(t, cmds, s).0);
  }

  lemma {:induction false} StmtRecords(t: Tables, cmds: Commands, s: Stmt, x: string, t1: Tables)
    requires !s.Autos? && !s.Static? && OneStaticIn(s, cmds) && t1 == Hgr(t, cmds, s).0
    ensures LeavesRecords(Records(t, x), Records(t1, x), DeclaresIn(s, cmds, x), NestsIn(s, cmds, x))
    decreases s, 1
  {
    match s
    case Call(lhs, f, args) => ChecksKeepRecords(Check(t, cmds, lhs, false), cmds, args);
    case If(c, yes, no) =>
      var u := Check(t, cmds, c, false);
      var u1 := HgrStmts(u, cmds, yes, 0, 0).0;
      ListRecords(u, cmds, yes, 0, 0, x, u1);
      ListRecords(u1, cmds, no, 0, 0, x, t1);
      RecordsTogether(Records(t, x), Records(u1, x), Records(t1, x));
    case While(c, body) => ListRecords(Check(t, cmds, c, false), cmds, body, 0, 0, x, t1);
    case Block(body) => ListRecords(t, cmds, body, 0, 0, x, t1);
    case _ =>
  }

  /**
    A definition pushes two records and leaving the scope pops one: lookups of an identifier find the same records
    after a function as before it exactly if its static locals do not nest.
  */
  lemma {:induction false} LookupsRestoredIff(t: Tables, cmds: Commands, b: Stmts, x: string)
    requires OneStatic(b, cmds, false)
    ensures Mangled(Records(HgrStmts(t, cmds, b, 0, 0).0, x)) == Mangled(Records(t, x)) <==> !Nests(b, cmds, x)
  {
    ListRecords(t, cmds, b, 0, 0, x, HgrStmts(t, cmds, b, 0, 0).0);
  }

  /** The most recent of them is what a lookup returns. */
  lemma {:induction false} LatestIsLastMangled(rs: seq<Symbol>)
    ensures Latest(rs) == if Mangled(rs) == [] then None else Some(Mangled(rs)[|Mangled(rs)| - 1])
  {
    if rs != [] {
      LatestIsLastMangled(rs[..|rs| - 1]);
    }
  }

  // ---------------------------------------------------------------- no static local over a live automatic variable

  /** The walk looks among the automatic variables first, however deep the static local is declared. */
  lemma StaticSeenIff(t: Tables, cmds: Commands, d: VarDef)
    requires NeedsGlobalising(cmds, d)
    ensures Leaf(HgrStatic(t, cmds, d).0, cmds, d.x, false) != Some(Plain(Src(d.x))) <==> d.x !in t.locals
  {
    var m := StaticPushes(t, cmds, d);
    var u := HgrStatic(t, cmds, d).0;
    hide HgrStatic;
    LatestOfPush(Records(t, d.x) + [DeclaredSymbol(d)], m);
    assert Records(u, d.x) == Records(t, d.x) + [DeclaredSymbol(d)] + [m];
  }

  // ---------------------------------------------------------------- no mention of a later declarator

  /** In the initialisers of valid C, names declared so far. */
  predicate UsesAutos(defs: seq<AutoVar>, names: set<string>) {
    defs == [] ||
    (&& (defs[0].init.Some? ==> Uses(defs[0].init.value, names + {defs[0].x}))
     && UsesAutos(defs[1..], names + {defs[0].x}))
  }

  predicate HasRewritten(e: Expr, later: seq<string>, scope: Scope) {
    exists x :: x in later && x in NamesOf(e) && RefOf(scope, x) != Plain(Src(x))
  }

  /** Whether some initialiser names a rewritten variable that a later declarator of the same declaration will hide. */
  predicate MentionsLater(defs: seq<AutoVar>, scope: Scope)
    decreases defs
  {
    defs != [] &&
    (|| (defs[0].init.Some? &&
          HasRewritten(defs[0].init.value, AutoNames(defs[1..]), scope[defs[0].x := Local]))
     || MentionsLater(defs[1..], scope[defs[0].x := Local]))
  }

  lemma {:induction false} SameExprIff(t: Tables, cmds: Commands, e: Expr, scope: Scope, names: set<string>)
    requires Uses(e, names)
    ensures HgrExpr(t, cmds, e, false) == ResolveExpr(e, scope)
       <==> forall x :: x in NamesOf(e) ==> LeafRef(t, cmds, x, false) == RefOf(scope, x)
  {
    match e
    case Num(_) =>
    case Id(r) =>
    case Deref(a) => SameExprIff(t, cmds, a, scope, names);
    case Addr(a) => SameExprIff(t, cmds, a, scope, names);
    case Binary(_, a, b) =>
      SameExprIff(t, cmds, a, scope, names);
      SameExprIff(t, cmds, b, scope, names);
  }

  lemma {:induction false} LeavesFound(t: Tables, cmds: Commands, e: Expr, names: set<string>)
    requires Uses(e, names) && forall x :: x in NamesOf(e) ==> Leaf(t, cmds, x, false).Some?
    ensures !Fails(t, cmds, e, false)
  {
    match e
    case Num(_) =>
    case Id(r) =>
    case Deref(a) => LeavesFound(t, cmds, a, names);
    case Addr(a) => LeavesFound(t, cmds, a, names);
    case Binary(_, a, b) =>
      LeavesFound(t, cmds, a, names);
      LeavesFound(t, cmds, b, names);
  }

  /** One initialiser, when the walk already knows all the declaration's names. */
  lemma {:induction false} InitialiserIff(t: Tables, cmds: Commands, e: Expr, scope: Scope, later: seq<string>)
    requires Uses(e, scope.Keys)
    requires forall x :: x in scope && x !in later ==> Knows(t, cmds, x, scope[x])
    requires forall x :: x in later ==> x in t.locals
    ensures HgrExpr(t, cmds, e, false) == ResolveExpr(e, scope) <==> !HasRewritten(e, later, scope)
    ensures CheckInit(t, cmds, Some(e), false) == t
  {
    NamesUsed(e, scope.Keys);
    SameExprIff(t, cmds, e, scope, scope.Keys);
    forall x | x in NamesOf(e)
      ensures Leaf(t, cmds, x, false).Some?
      ensures x !in later ==> LeafRef(t, cmds, x, false) == RefOf(scope, x)
      ensures x in later ==> LeafRef(t, cmds, x, false) == Plain(Src(x))
    {
      if x !in later {
        LeafAgrees(t, cmds, scope, x, 0);
      }
    }
    LeavesFound(t, cmds, e, scope.Keys);
  }

  /** A declaration of automatic variables is rewritten as C's scoping says exactly if no initialiser does that. */
  lemma {:induction false} AutosAgreeIff(t: Tables, cmds: Commands, defs: seq<AutoVar>, scope: Scope)
    requires UsesAutos(defs, scope.Keys)
    requires forall x :: x in scope && x !in AutoNames(defs) ==> Knows(t, cmds, x, scope[x])
    requires forall x :: x in AutoNames(defs) ==> x in t.locals
    ensures HgrAutos(t, cmds, defs).0 == t
    ensures HgrAutos(t, cmds, defs).1 == ResolveAutos(defs, scope).0 <==> !MentionsLater(defs, scope)
    decreases defs
  {
    if defs != [] {
      var scope1, rest := scope[defs[0].x := Local], AutoNames(defs[1..]);
      assert AutoNames(defs) == [defs[0].x] + rest;
      assert scope1.Keys == scope.Keys + {defs[0].x};
      if defs[0].init.Some? {
        InitialiserIff(t, cmds, defs[0].init.value, scope1, rest);
      }
      AutosAgreeIff(t, cmds, defs[1..], scope1);
      HeadsAndTails(t, cmds, defs, scope);
    }
  }

  lemma HeadsAndTails(t: Tables, cmds: Commands, defs: seq<AutoVar>, scope: Scope)
    requires defs != [] && CheckInit(t, cmds, defs[0].init, false) == t
    ensures HgrAutos(t, cmds, defs).1 == ResolveAutos(defs, scope).0
       <==> (&& HgrAutos(t, cmds, defs[1..]).1 == ResolveAutos(defs[1..], scope[defs[0].x := Local]).0
             && (defs[0].init.None? || HgrExpr(t, cmds, defs[0].init.value, false)
                                    == ResolveExpr(defs[0].init.value, scope[defs[0].x := Local])))
  {
    var walked, resolved := HgrAutos(t, cmds, defs).1, ResolveAutos(defs, scope).0;
    assert walked == [walked[0]] + walked[1..] && resolved == [resolved[0]] + resolved[1..];
  }

  // ---------------------------------------------------------------- one form per object

  /**
    A later declaration of a name gets the form of an earlier one exactly if the name is marked `$expand_decl`, or the
    form does not change with an array declarator or a struct definition that the one has and the other lacks.
  */
  lemma FormKeptIff(lay: Layout, lay1: Layout, cmds: Commands, d: VarDef, d1: VarDef)
    requires d1.x == d.x && d.x in lay.front && d.x in lay1.front && lay1.front[d.x] == lay.front[d.x]
    ensures Declare(lay1, cmds, d1).1.New? == Declare(lay, cmds, d).1.New?
       <==> Configured(cmds, d.x) || !FormChanges(lay.front[d.x], d.kind, d1.kind, lay.structs, lay1.structs)
  {
  }

  // ---------------------------------------------------------------- no first definition that mentions itself

  lemma {:induction false} AnyRefIff(e: Expr, p: string -> bool, names: set<string>)
    requires names == NamesOf(e)
    ensures AnyRef(e, p) <==> exists x :: x in names && p(x)
  {
    match e
    case Num(_) =>
    case Id(r) => assert r.Plain? && r.name.Src? ==> r.name.x in names;
    case Deref(a) => AnyRefIff(a, p, names);
    case Addr(a) => AnyRefIff(a, p, names);
    case Binary(_, a, b) =>
      AnyRefIff(a, p, NamesOf(a));
      AnyRefIff(b, p, NamesOf(b));
  }

  /** A declaration whose initialiser the walk can resolve but for its own name. */
  ghost predicate ResolvesOthers(t: Tables, cmds: Commands, d: VarDef, isStatic: bool) {
    && d.shape.Single? && d.shape.init.Some? && IsGlobal(cmds, d.x) && (isStatic || !IsFunction(t, d.x)) && !t.failed
    && forall x :: x in NamesOf(d.shape.init.value) && x != d.x ==> Leaf(t, cmds, x, true).Some?
  }

  predicate GetsInstances(t: Tables, cmds: Commands, d: VarDef) {
    d.kind.isArray || Expands(Push(t, d.x, DeclaredSymbol(d)), cmds, d.x, d.kind.isPointer, d.kind.isArray)
  }

  /** What the walk makes of an identifier once the declaration is on the table, and its rewriting is not. */
  lemma LeafWhenDeclared(t: Tables, cmds: Commands, d: VarDef, isStatic: bool, x: string)
    requires IsGlobal(cmds, d.x)
    ensures LeafFails(Declared(t, d, isStatic), cmds, x, true)
       <==> if x == d.x then d.x !in t.locals && Latest(Records(t, d.x)).None? else LeafFails(t, cmds, x, true)
  {
    DeclaredTables(t, d, isStatic);
    hide Declared, Push;
    var t2 := Declared(t, d, isStatic);
    if x == d.x {
      LatestOfPush(Records(t, x), DeclaredSymbol(d));
      assert Records(t2, x) == Records(t, x) + [DeclaredSymbol(d)];
    } else {
      assert Records(t2, x) == Records(t, x);
    }
  }

  /**
    The initialiser of a definition that gets instances is walked before the instances are on the table: it is an error
    exactly if it mentions the definition's own name and no earlier rewriting is there to be found.
  */
  lemma SelfMentionIff(t: Tables, cmds: Commands, d: VarDef, isStatic: bool)
    requires ResolvesOthers(t, cmds, d, isStatic) && GetsInstances(t, cmds, d)
    ensures HandleGlobal(t, cmds, d, isStatic).0.failed
       <==> d.x in NamesOf(d.shape.init.value) && d.x !in t.locals && Latest(Records(t, d.x)).None?
  {
    var e, t2 := d.shape.init.value, Declared(t, d, isStatic);
    AnyRefIff(e, x => LeafFails(t2, cmds, x, true), NamesOf(e));
    forall x
      ensures LeafFails(t2, cmds, x, true)
         <==> if x == d.x then d.x !in t.locals && Latest(Records(t, d.x)).None? else LeafFails(t, cmds, x, true)
    {
      LeafWhenDeclared(t, cmds, d, isStatic, x);
    }
    assert HandleGlobal(t, cmds, d, isStatic).0.failed == (t.failed || Fails(t2, cmds, e, true));
  }

  // What the copies of an initialiser refer to.

  lemma {:induction false} CopyIff(t: Tables, cmds: Commands, e: Expr, scope: Scope, names: set<string>, j: nat)
    requires Uses(e, names)
    ensures Instantiate(HgrExpr(t, cmds, e, true), j) == ResolveInit(e, scope, j)
       <==> forall x :: x in NamesOf(e) ==> CopiesLeaf(t, cmds, scope, x, j)
  {
    match e
    case Num(_) =>
    case Id(r) =>
      var n := r.name.x;
      assert NamesOf(e) == {n};
      assert HgrExpr(t, cmds, e, true) == Id(LeafRef(t, cmds, n, true)) && ResolveInit(e, scope, j) == Id(InitRef(scope, n, j));
      assert CopiesLeaf(t, cmds, scope, n, j) <==> Instantiate(HgrExpr(t, cmds, e, true), j) == ResolveInit(e, scope, j);
      hide Instantiate, LeafRef, InitRef, CopiesLeaf, HgrExpr, ResolveInit;
      assert (forall x :: x in NamesOf(e) ==> CopiesLeaf(t, cmds, scope, x, j)) <==> CopiesLeaf(t, cmds, scope, n, j);
    case Deref(a) => CopyIff(t, cmds, a, scope, names, j);
    case Addr(a) => CopyIff(t, cmds, a, scope, names, j);
    case Binary(_, a, b) =>
      CopyIff(t, cmds, a, scope, names, j);
      CopyIff(t, cmds, b, scope, names, j);
      assert NamesOf(e) == NamesOf(a) + NamesOf(b);
  }

  predicate CopiesLeaf(t: Tables, cmds: Commands, scope: Scope, x: string, j: nat) {
    Instantiate(Id(LeafRef(t, cmds, x, true)), j) == Id(InitRef(scope, x, j))
  }

  /** A source declaration that gets instances, and whose initialiser uses what is in scope, and perhaps itself. */
  ghost predicate KnowsOthers(t: Tables, cmds: Commands, d: VarDef, isStatic: bool, scope: Scope) {
    && d.shape.Single? && d.shape.init.Some? && IsGlobal(cmds, d.x) && (isStatic || !IsFunction(t, d.x)) && !t.failed
    && Uses(d.shape.init.value, scope.Keys + {d.x})
    && forall x :: x in NamesOf(d.shape.init.value) && x != d.x ==> x in scope && Knows(t, cmds, x, scope[x])
  }

  /** An earlier rewriting of x, which gave it instances too, is there to be found. */
  predicate FindsInstances(t: Tables, x: string) {
    x !in t.locals && Latest(Records(t, x)).Some? && Latest(Records(t, x)).value.isArray
  }

  /** The name of the definition itself in its initialiser, while the instances are not on the table. */
  lemma SelfCopied(t: Tables, cmds: Commands, d: VarDef, isStatic: bool, scope: Scope, id: ObjectId, n: nat, j: nat)
    requires IsGlobal(cmds, d.x)
    ensures CopiesLeaf(Declared(t, d, isStatic), cmds, scope[d.x := Bound(id, New(n))], d.x, j) <==> FindsInstances(t, d.x)
  {
    DeclaredTables(t, d, isStatic);
    LatestOfPush(Records(t, d.x), DeclaredSymbol(d));
    assert Records(Declared(t, d, isStatic), d.x) == Records(t, d.x) + [DeclaredSymbol(d)];
    hide Declared, Latest;
  }

  lemma OtherCopied(t: Tables, cmds: Commands, d: VarDef, isStatic: bool, scope: Scope, id: ObjectId, n: nat, x: string,
                    j: nat)
    requires x != d.x && x in scope && Knows(t, cmds, x, scope[x])
    ensures CopiesLeaf(Declared(t, d, isStatic), cmds, scope[d.x := Bound(id, New(n))], x, j)
    ensures !LeafFails(Declared(t, d, isStatic), cmds, x, true)
  {
    var t2 := Declared(t, d, isStatic);
    DeclaredTables(t, d, isStatic);
    hide Declared, Latest;
    assert Records(t2, x) == Records(t, x);
    OthersKnown(t, t2, cmds, x, scope[x]);
    LeafAgrees(t2, cmds, scope, x, j);
  }

  predicate WalkedAsResolved(t: Tables, cmds: Commands, d: VarDef, isStatic: bool, scope1: Scope) {
    var (t1, d1) := HandleGlobal(t, cmds, d, isStatic);
    !t1.failed && d1 == ResolveDef(d, New(t.arrays), scope1)
  }

  /**
    A definition that gets instances is rewritten without an error and as C's scoping says exactly if its initialiser
    does not mention it, or what is found for its name has instances already.
  */
  lemma SelfMentionResolvedIff(t: Tables, cmds: Commands, d: VarDef, isStatic: bool, scope: Scope, id: ObjectId)
    requires KnowsOthers(t, cmds, d, isStatic, scope) && GetsInstances(t, cmds, d)
    ensures WalkedAsResolved(t, cmds, d, isStatic, scope[d.x := Bound(id, New(t.arrays))])
       <==> d.x !in NamesOf(d.shape.init.value) || FindsInstances(t, d.x)
  {
    var e, t2, scope1 := d.shape.init.value, Declared(t, d, isStatic), scope[d.x := Bound(id, New(t.arrays))];
    var walked := HgrExpr(t2, cmds, e, true);
    var names := NamesOf(e);
    AnyRefIff(e, x => LeafFails(t2, cmds, x, true), names);
    forall x | x in names && x != d.x
      ensures !LeafFails(t2, cmds, x, true) && forall j: nat :: CopiesLeaf(t2, cmds, scope1, x, j)
    {
      forall j: nat
        ensures CopiesLeaf(t2, cmds, scope1, x, j)
      {
        OtherCopied(t, cmds, d, isStatic, scope, id, t.arrays, x, j);
      }
      OtherCopied(t, cmds, d, isStatic, scope, id, t.arrays, x, 0);
    }
    LeafWhenDeclared(t, cmds, d, isStatic, d.x);
    forall j: nat
      ensures Instantiate(walked, j) == ResolveInit(e, scope1, j) <==> d.x !in names || FindsInstances(t, d.x)
    {
      CopyIff(t2, cmds, e, scope1, scope.Keys + {d.x}, j);
      SelfCopied(t, cmds, d, isStatic, scope, id, t.arrays, j);
    }
    assert Fails(t2, cmds, e, true) ==> d.x in names && !FindsInstances(t, d.x);
    hide FindsInstances, Knows, CopiesLeaf, Fails, HgrExpr, ResolveInit, Expands, NamesOf, Uses, HandleGlobal, ResolveDef;
    var first := Instantiate(walked, 0);
    SelfHandled(t, cmds, d, isStatic, scope1);
  }

  lemma SelfHandled(t: Tables, cmds: Commands, d: VarDef, isStatic: bool, scope1: Scope)
    requires d.shape.Single? && d.shape.init.Some? && IsGlobal(cmds, d.x) && (isStatic || !IsFunction(t, d.x)) && !t.failed
    requires GetsInstances(t, cmds, d)
    ensures var (t1, d1) := HandleGlobal(t, cmds, d, isStatic);
            var e, t2 := d.shape.init.value, Declared(t, d, isStatic);
            && t1.failed == Fails(t2, cmds, e, true)
            && (d1 == ResolveDef(d, New(t.arrays), scope1) <==>
                 forall j: nat :: j < NUM_STACKS ==>
                   Instantiate(HgrExpr(t2, cmds, e, true), j) == ResolveInit(e, scope1, j))
  {
    var e, t2 := d.shape.init.value, Declared(t, d, isStatic);
    hide Fails, HgrExpr, ResolveInit, Instantiate, Expands, IsFunction;
    var a := seq(NUM_STACKS, j requires 0 <= j => Instantiate(HgrExpr(t2, cmds, e, true), j));
    var b := seq(NUM_STACKS, j requires 0 <= j => ResolveInit(e, scope1, j));
    assert HandleGlobal(t, cmds, d, isStatic).1 == d.(shape := Expanded(Some(a), t.arrays));
    assert ResolveDef(d, New(t.arrays), scope1) == d.(shape := Expanded(Some(b), t.arrays));
    assert d.(shape := Expanded(Some(a), t.arrays)) == d.(shape := Expanded(Some(b), t.arrays)) ==> a == b;
    assert a == b ==> forall j: nat :: j < NUM_STACKS ==>
      Instantiate(HgrExpr(t2, cmds, e, true), j) == a[j] == b[j] == ResolveInit(e, scope1, j);
    if forall j: nat :: j < NUM_STACKS ==> Instantiate(HgrExpr(t2, cmds, e, true), j) == ResolveInit(e, scope1, j) {
      assert forall j: nat :: j < NUM_STACKS ==> a[j] == b[j];
      assert a == b;
    }
  }

  // ---------------------------------------------------------------- no static local with a function's name

  predicate VariablesFrom(rs: seq<Symbol>, n: nat) {
    forall i :: n <= i < |rs| ==> !rs[i].isFunction
  }

  lemma {:induction false} PopsKeepVariables(t: Tables, k: nat, x: string, n: nat)
    requires VariablesFrom(Records(t, x), n)
    ensures VariablesFrom(Records(PopStatics(t, k), x), n)
    decreases k
  {
    if k > 0 && t.statics != [] {
      var last := |t.statics| - 1;
      PopsKeepVariables(Undefine(t, t.statics[last]).(statics := t.statics[..last]), k - 1, x, n);
    }
  }

  /** The walk of a function's body puts variables on the table, and no functions. */
  lemma {:induction false} ListKeepsVariables(t: Tables, cmds: Commands, b: Stmts, numLocals: nat, numStatics: nat,
                                              x: string, n: nat, t1: Tables)
    requires VariablesFrom(Records(t, x), n) && t1 == HgrStmts(t, cmds, b, numLocals, numStatics).0
    ensures VariablesFrom(Records(t1, x), n)
    decreases b, 1
  {
    match b
    case Done => PopsKeepVariables(PopLocals(t, numLocals), numStatics, x, n);
    case Then(s, rest) =>
      StepKeepsVariables(t, cmds, s, numStatics, x, n);
      var (u, _, locals, statics) := HgrStep(t, cmds, s, numStatics);
      hide VariablesFrom, HgrStep;
      ListKeepsVariables(u, cmds, rest, numLocals + locals, statics, x, n, t1);
  }

  lemma {:induction false} StepKeepsVariables(t: Tables, cmds: Commands, s: Stmt, numStatics: nat, x: string, n: nat)
    requires VariablesFrom(Records(t, x), n)
    ensures VariablesFrom(Records(HgrStep(t, cmds, s, numStatics).0, x), n)
    decreases s, 2
  {
    match s
    case Autos(defs) => AutosKeepRecords(t.(locals := t.locals + AutoNames(defs)), cmds, defs);
    case Static(_, d) =>
      if NeedsGlobalising(cmds, d) {
        var m := StaticPushes(t, cmds, d);
      } else {
        StaticIdle(t, cmds, d);
      }
    case _ => StmtKeepsVariables(t, cmds, s, x, n, Hgr(t, cmds, s).0);
  }

  lemma {:induction false} StmtKeepsVariables(t: Tables, cmds: Commands, s: Stmt, x: string, n: nat, t1: Tables)
    requires VariablesFrom(Records(t, x), n) && t1 == Hgr(t, cmds, s).0
    ensures VariablesFrom(Records(t1, x), n)
    decreases s, 1
  {
    hide VariablesFrom;
    match s
    case Call(lhs, f, args) => ChecksKeepRecords(Check(t, cmds, lhs, false), cmds, args);
    case If(c, yes, no) =>
      var u := Check(t, cmds, c, false);
      var u1 := HgrStmts(u, cmds, yes, 0, 0).0;
      ListKeepsVariables(u, cmds, yes, 0, 0, x, n, u1);
      ListKeepsVariables(u1, cmds, no, 0, 0, x, n, t1);
    case While(c, body) => ListKeepsVariables(Check(t, cmds, c, false), cmds, body, 0, 0, x, n, t1);
    case Block(body) => ListKeepsVariables(t, cmds, body, 0, 0, x, n, t1);
    case _ =>
  }

  /**
    Two records are pushed for a static local and one is popped: a function's name stays one exactly if no static local
    of the statements is rewritten under it.
  */
  lemma {:induction false} FunctionKeptIff(t: Tables, cmds: Commands, b: Stmts, f: string)
    requires IsFunction(t, f) && OneStatic(b, cmds, false)
    ensures IsFunction(HgrStmts(t, cmds, b, 0, 0).0, f) <==> !Declares(b, cmds, f)
  {
    var t1 := HgrStmts(t, cmds, b, 0, 0).0;
    var before, after := Records(t, f), Records(t1, f);
    ListRecords(t, cmds, b, 0, 0, f, t1);
    ListKeepsVariables(t, cmds, b, 0, 0, f, |before|, t1);
    assert LeavesRecords(before, after, Declares(b, cmds, f), Nests(b, cmds, f));
    hide HgrStmts, Declares, Nests, Mangled;
    if |after| == |before| {
      assert after == before;
    }
  }

  // ---------------------------------------------------------------- static locals that stay single

  /** A static local is left as it is, for all stacks to share, exactly if all identifiers of its declaration are ignored. */
  lemma StaticStaysIff(t: Tables, cmds: Commands, d: VarDef)
    requires d.shape.Single?
    ensures HgrStatic(t, cmds, d).1.shape.Single?
       <==> && !IsGlobal(cmds, d.x)
            && (d.shape.init.Some? ==> forall x :: x in NamesOf(d.shape.init.value) ==> !IsGlobal(cmds, x))
  {
    if d.shape.init.Some? {
      AnyRefIff(d.shape.init.value, x => IsGlobal(cmds, x), NamesOf(d.shape.init.value));
    }
  }

  const Plainly := Kind(false, false, "")

  /** Two static locals of one block: the first stays live for the rest of the file. */
  lemma TwoStaticsLeak()
    ensures var a, b := VarDef("a", Plainly, Single(None)), VarDef("b", Plainly, Single(None));
            HgrStmts(Empty, map[], Then(Static(0, a), Then(Static(1, b), Done)), 0, 0).0.statics != []
  {
    var a, b := VarDef("a", Plainly, Single(None)), VarDef("b", Plainly, Single(None));
    var body := Then(Static(0, a), Then(Static(1, b), Done));
    assert !OneStatic(body, map[], false) by {
      assert NeedsGlobalising(map[], a);
      assert !OneStatic(Then(Static(1, b), Done), map[], true);
    }
    ListsRestoredIff(Empty, map[], body);
  }

  /** A static local over a parameter: the assignment to it is left as it is. */
  lemma HiddenStaticMissed()
    ensures var d := VarDef("x", Plainly, Single(None));
            var t := HgrStatic(Empty.(locals := ["x"]), map[], d).0;
            Leaf(t, map[], "x", false) == Some(Plain(Src("x")))
  {
    var d := VarDef("x", Plainly, Single(None));
    StaticSeenIff(Empty.(locals := ["x"]), map[], d);
    assert d.x in Empty.(locals := ["x"]).locals;
  }

  /** A static local in the scope of one of the same name: a record of the outer one is left to be found. */
  lemma NestedStaticFound(x: string)
    ensures var d := VarDef(x, Plainly, Single(None));
            var b := Then(Static(0, d), Then(Block(Then(Static(1, d), Done)), Done));
            Latest(Records(HgrStmts(Empty, map[], b, 0, 0).0, x)).Some?
  {
    hide HgrStmts, Hgr;
    var d := VarDef(x, Plainly, Single(None));
    var inner := Then(Static(1, d), Done);
    var rest := Then(Block(inner), Done);
    var b := Then(Static(0, d), rest);
    assert NeedsGlobalising(map[], d);
    assert OneStatic(inner, map[], false) && Declares(inner, map[], x);
    assert OneStatic(rest, map[], true) && Declares(rest, map[], x) by {
      assert OneStaticIn(Block(inner), map[]) && DeclaresIn(Block(inner), map[], x);
    }
    assert OneStatic(b, map[], false) && Nests(b, map[], x);
    LookupsRestoredIff(Empty, map[], b, x);
    assert Mangled([]) == [];
    LatestIsLastMangled(Records(HgrStmts(Empty, map[], b, 0, 0).0, x));
  }

  /** int a = y, y: the walk takes the y of the initialiser for the one that is declared after it. */
  lemma LaterSiblingMissed()
    ensures var defs := [AutoVar("a", Some(Id(Plain(Src("y"))))), AutoVar("y", None)];
            var t := Push(Empty, "y", Symbol(false, "", false, false, Some(OldArray("y")))).(locals := ["a", "y"]);
            var scope: Scope := map["y" := Bound(GlobalObject("y"), Old)];
            HgrAutos(t, map[], defs).1 != ResolveAutos(defs, scope).0
  {
    var defs := [AutoVar("a", Some(Id(Plain(Src("y"))))), AutoVar("y", None)];
    var t := Push(Empty, "y", Symbol(false, "", false, false, Some(OldArray("y")))).(locals := ["a", "y"]);
    var scope: Scope := map["y" := Bound(GlobalObject("y"), Old)];
    assert AutoNames(defs) == ["a", "y"] && AutoNames(defs[1..]) == ["y"];
    assert "a" in AutoNames(defs) && "y" in AutoNames(defs) && "y" in AutoNames(defs[1..]);
    assert HasRewritten(defs[0].init.value, AutoNames(defs[1..]), scope["a" := Local]);
    AutosAgreeIff(t, map[], defs, scope);
  }

  const Self := VarDef("x", Plainly, Single(Some(Addr(Id(Plain(Src("x")))))))

  /** `struct list_head x = { &x };` with instances: the walk finds no rewriting of x and gives up. */
  lemma SelfMentionFails()
    ensures HandleItems(Empty, map["x" := ExpandDecl], [Global(Self)]).0.failed
  {
    var cmds := map["x" := ExpandDecl];
    assert Records(Empty, "x") == [];
    SelfMentionIff(Empty, cmds, Self, false);
    assert [Global(Self)][1..] == [];
  }

  const UnmangledX := Symbol(false, "", false, false, None)
  const MangledX := Symbol(false, "", false, false, Some(OldArray("x")))

  lemma OuterTables()
    ensures HandleGlobal(Empty, map[], VarDef("x", Plainly, Single(None)), false).0
         == Empty.(symbols := map["x" := [UnmangledX, MangledX]])
  {
    var t := Push(Empty, "x", UnmangledX);
    assert Records(Empty, "x") == [] && [] + [UnmangledX] == [UnmangledX];
    assert t == Empty.(symbols := map["x" := [UnmangledX]]);
    assert [UnmangledX] + [MangledX] == [UnmangledX, MangledX];
    assert Push(t, "x", MangledX) == Empty.(symbols := map["x" := [UnmangledX, MangledX]]);
  }

  /**
    `int x; void f(void) { static void *x[] = { &x }; }`: the walk finds the outer x, without an error.  Copy 3 of the
    initialiser has the address of the outer variable of stack 3; in C it is that of the array itself.
  */
  lemma OuterFound()
    ensures var t := HandleGlobal(Empty, map[], VarDef("x", Plainly, Single(None)), false).0;
            var d := VarDef("x", Kind(true, true, ""), Single(Some(Addr(Id(Plain(Src("x")))))));
            var (t1, d1, _) := HgrStatic(t, map[], d);
            && !t1.failed && d1.shape.Expanded? && d1.shape.inits.Some? && |d1.shape.inits.value| == NUM_STACKS
            && d1.shape.inits.value[3] == Addr(Id(At(OldArray("x"), 3)))
            && ResolveInit(d.shape.init.value, map["x" := Bound(StaticObject(0), New(0))], 3) == Addr(Id(Instance("x", 3)))
            && !FindsInstances(t, "x")
  {
    var t := HandleGlobal(Empty, map[], VarDef("x", Plainly, Single(None)), false).0;
    var d := VarDef("x", Kind(true, true, ""), Single(Some(Addr(Id(Plain(Src("x")))))));
    var rs := [UnmangledX, MangledX];
    OuterTables();
    var t2 := Declared(t, d, true);
    assert rs[..1] == [rs[0]] && Latest(rs) == Some(rs[1]);
    LatestOfPush(rs, DeclaredSymbol(d));
    assert Records(t2, "x") == rs + [DeclaredSymbol(d)];
    assert Leaf(t2, map[], "x", true) == Some(Slot(OldArray("x")));
    assert HgrExpr(t2, map[], d.shape.init.value, true) == Addr(Id(Slot(OldArray("x"))));
    assert !Fails(t2, map[], d.shape.init.value, true);
    SelfHandled(t, map[], d, true, map[]);
  }

  /** A static local with the name of a function: the function is taken for a variable afterwards, and not found. */
  lemma FunctionLost(f: string)
    ensures var d := VarDef(f, Plainly, Single(None));
            var t := HgrStmts(DefineFunction(Empty, f), map[], Then(Static(0, d), Done), 0, 0).0;
            !IsFunction(t, f) && Leaf(t, map[], f, false) == None
  {
    hide HgrStmts;
    var d, t0 := VarDef(f, Plainly, Single(None)), DefineFunction(Empty, f);
    var b := Then(Static(0, d), Done);
    assert NeedsGlobalising(map[], d);
    assert OneStatic(b, map[], false) && Declares(b, map[], f) && !Nests(b, map[], f) by {
      assert OneStatic(Done, map[], true) && !Declares(Done, map[], f) && !Nests(Done, map[], f);
      assert DeclaresIn(Static(0, d), map[], f) && !NestsIn(Static(0, d), map[], f);
    }
    var t := HgrStmts(t0, map[], b, 0, 0).0;
    assert Records(t0, f) == [Symbol(true, "", false, false, None)] && IsFunction(t0, f);
    FunctionKeptIff(t0, map[], b, f);
    ListRecords(t0, map[], b, 0, 0, f, t);
    LookupsRestoredIff(t0, map[], b, f);
    MangledOfPush([], Symbol(true, "", false, false, None));
    LatestIsLastMangled(Records(t, f));
    ListsRestoredIff(t0, map[], b);
  }

  /** `static struct s x;` with x ignored and s not: it stays single, as the tag of a struct is no identifier. */
  lemma IgnoredStructStays()
    ensures var d := VarDef("x", Kind(false, false, "s"), Single(None));
            IsGlobal(map["x" := Ignored], "s") && HgrStatic(Empty, map["x" := Ignored], d) == (Empty, d, 0)
  {
  }

  const Counter := VarDef("x", Plainly, Single(Some(Num(0))))
  const X := Id(Plain(Src("x")))
  const Place := Object(StaticObject(0))
  const Counting := Then(Static(0, Counter), Then(Assign(X, Binary(Plus, X, Num(1))), Then(Return(X), Done)))

  lemma {:induction false} IgnoredNameStays(cmds: Commands)
    requires cmds == map["x" := Ignored]
    ensures forall e :: e in {X, Binary(Plus, X, Num(1))} ==>
              HgrExpr(Empty, cmds, e, false) == e && !Fails(Empty, cmds, e, false)
    ensures HgrStatic(Empty, cmds, Counter) == (Empty, Counter, 0)
  {
    assert HgrExpr(Empty, cmds, X, false) == X && !Fails(Empty, cmds, X, false);
  }

  lemma {:induction false} StepStays(cmds: Commands, s: Stmt, rest: Stmts)
    requires HgrStep(Empty, cmds, s, 0) == (Empty, s, 0, 0) && HgrStmts(Empty, cmds, rest, 0, 0).1 == rest
    ensures HgrStmts(Empty, cmds, Then(s, rest), 0, 0).1 == Then(s, rest)
  {
  }

  /** `static int x = 0; x = x + 1; return x;` with x ignored is left alone, */
  lemma {:induction false} IgnoredStaticStays()
    ensures HgrStmts(Empty, map["x" := Ignored], Counting, 0, 0).1 == Counting
  {
    var cmds: Commands := map["x" := Ignored];
    IgnoredNameStays(cmds);
    var sum, back := Binary(Plus, X, Num(1)), Then(Return(X), Done);
    hide HgrExpr, Fails, HgrStatic;
    StepStays(cmds, Return(X), Done);
    StepStays(cmds, Assign(X, sum), back);
    StepStays(cmds, Counting.first, Then(Assign(X, sum), back));
  }

  /** and so each stack counts on from where the last one was. */
  lemma {:induction false} IgnoredStaticShared(n: int, k: nat)
    ensures ExecStmts(Counting, map[], State(map[Place := Int(n)], 0), map[], k, 0)
         == Returned(Int(n + 1), State(map[Place := Int(n + 1)], 0))
  {
    var env := Bind(map[], StaticObject(0), Counter);
    var m, m1 := map[Place := Int(n)], map[Place := Int(n + 1)];
    var sum, back := Binary(Plus, X, Num(1)), Then(Return(X), Done);
    assert Locate(X, env, m, k) == Some(Place) && Locate(X, env, m1, k) == Some(Place);
    assert Eval(X, env, m, k) == Some(Int(n)) && Eval(X, env, m1, k) == Some(Int(n + 1));
    assert Eval(sum, env, m, k) == Some(Int(n + 1));
    assert m[Place := Int(n + 1)] == m1;
    assert ExecStep(Assign(X, sum), env, State(m, 0), map[], k, 0) == (Normal(State(m1, 0)), env);
    assert ExecStmts(Then(Assign(X, sum), back), env, State(m, 0), map[], k, 0)
        == ExecStmts(back, env, State(m1, 0), map[], k, 0);
  }
}
