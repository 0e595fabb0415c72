/**
  What the globaliser is for: one rewritten program in one memory is as many independent copies of the source program
  as there are network stacks.
*/
module Stacks {
  import opened Wrappers
  import opened CLang
  import opened Globaliser
  import opened Lexical
  import opened Preservation
  import opened Loading
  import ScopeProof

  const NoMachine := Machine(map[], map[], map[])
  const NoLayout := Layout(map[], {}, 0)

  function Globalised(p: Program, cmds: Commands): Program {
    HandleItems(Empty, cmds, p).1
  }

  /** The placement fits the rewritten program: each object has one form, each pointer array one object. */
  predicate Fits(p: Program, cmds: Commands, pl: Placement) {
    PlacedItems(Globalised(p, cmds), pl) && forall n :: n in pl.owner ==> n < EndOf(p, map[], NoLayout, cmds).1.arrays
  }

  /** No ignored variable's initialiser names a rewritten variable. */
  predicate Closed(p: Program, cmds: Commands) {
    ClosedItems(p, map[], NoLayout, cmds)
  }

  function ContextOf(p: Program, cmds: Commands, pl: Placement, k: nat, m: Machine, m': Machine): Context {
    Context(cmds, FunctionNames(p), pl, k, m.fns, m'.fns, ScopesOf(p, map[], NoLayout, cmds, map[]))
  }

  lemma {:induction false} Loaded(p: Program, cmds: Commands, pl: Placement, k: nat)
    requires SupportedProgram(p, cmds) && Fits(p, cmds, pl) && k < NUM_STACKS && (k == 0 || Closed(p, cmds))
    ensures var r, r' := Load(p, NoMachine), Load(Globalised(p, cmds), NoMachine);
            && r'.Some? == r.Some?
            && (r.Some? ==>
                 && Mirrors(r.value.mem, r'.value.mem, k, pl) && CellsHold(r'.value.mem, pl)
                 && FunctionsMirror(ContextOf(p, cmds, pl, k, r.value, r'.value)))
  {
    ScopeProof.WalkIsResolution(cmds, p);
    var c := Context(cmds, FunctionNames(p), pl, k, map[], map[], map[]);
    ItemsLoad(p, map[], NoLayout, NoMachine, NoMachine, c, Globalised(p, cmds));
  }

  /** Every stack starts from the source program's initial memory, and loading fails when the source's does. */
  lemma {:induction false} LoadPreserved(p: Program, cmds: Commands, pl: Placement)
    requires SupportedProgram(p, cmds) && Fits(p, cmds, pl) && Closed(p, cmds)
    ensures var r, r' := Load(p, NoMachine), Load(Globalised(p, cmds), NoMachine);
            && r'.Some? == r.Some?
            && (r.Some? ==>
                 CellsHold(r'.value.mem, pl) && forall k: nat :: k < NUM_STACKS ==> Mirrors(r.value.mem, r'.value.mem, k, pl))
  {
    Loaded(p, cmds, pl, 0);
    forall k: nat | k < NUM_STACKS
      ensures Load(p, NoMachine).Some? ==>
                Mirrors(Load(p, NoMachine).value.mem, Load(Globalised(p, cmds), NoMachine).value.mem, k, pl)
    {
      Loaded(p, cmds, pl, k);
    }
  }

  /** Conversely, what a stack other than 0 finds in an ignored variable is right only if it is no pointer to its own. */
  lemma {:induction false} MirroredIsClosed(p: Program, cmds: Commands, pl: Placement, k: nat, l: Loc)
    requires SupportedProgram(p, cmds) && Fits(p, cmds, pl) && 0 < k < NUM_STACKS
    requires Load(p, NoMachine).Some? && l.Object? && l.id in pl.shared && l in Load(p, NoMachine).value.mem
    requires Load(Globalised(p, cmds), NoMachine).Some?
    requires Mirrors(Load(p, NoMachine).value.mem, Load(Globalised(p, cmds), NoMachine).value.mem, k, pl)
    ensures var v := Load(p, NoMachine).value.mem[l]; v.Ptr? && v.l.Object? ==> v.l.id in pl.shared
  {
    Loaded(p, cmds, pl, 0);
    var m, m' := Load(p, NoMachine).value.mem, Load(Globalised(p, cmds), NoMachine).value.mem;
    assert MirrorsAt(m, m', 0, pl, l) && MirrorsAt(m, m', k, pl, l);
  }

  const X := VarDef("x", Kind(false, false, ""), Single(None))
  const P := VarDef("p", Kind(false, true, ""), Single(Some(Addr(Id(Plain(Src("x")))))))
  const Pointing: Program := [Global(X), Global(P)]
  const IgnoringP: Commands := map["p" := Ignored]

  lemma PointingLoads()
    ensures Load(Pointing, NoMachine).Some?
    ensures var m := Load(Pointing, NoMachine).value.mem;
            Object(GlobalObject("p")) in m && m[Object(GlobalObject("p"))] == Ptr(Object(GlobalObject("x")))
  {
    var last := [Global(P)];
    assert Pointing[1..] == last && last[1..] == [];
    var lx := Object(GlobalObject("x"));
    var m1 := Machine(map[Src("x") := Variable(lx)], map[], map[lx := Int(0)]);
    assert LoadItem(Global(X), NoMachine) == Some(m1);
    var env := Bind(m1.env, GlobalObject("p"), P);
    assert Locate(Id(Plain(Src("x"))), env, map[], 0) == Some(lx);
    var m2 := Machine(env, map[], m1.mem[Object(GlobalObject("p")) := Ptr(lx)]);
    assert LoadItem(Global(P), m1) == Some(m2);
    assert Load(last, m1) == Load([], m2) == Some(m2);
    assert Load(Pointing, NoMachine) == Load(last, m1);
  }

  const XScope: Scope := map["x" := Bound(GlobalObject("x"), Old)]
  const XLayout := Layout(map["x" := X.kind], {}, 0)
  const PScope := XScope["p" := Shared(GlobalObject("p"))]

  lemma PointingResolved()
    ensures ResolveItem(Global(X), map[], NoLayout, IgnoringP) == (Global(ResolveDef(X, Old, XScope)), XScope, XLayout)
    ensures ResolveItem(Global(P), XScope, XLayout, IgnoringP) == (Global(ResolveIgnored(P, PScope)), PScope, XLayout)
  {
  }

  lemma PointingSupported()
    ensures SupportedProgram(Pointing, IgnoringP)
  {
    var last := [Global(P)];
    assert Pointing[1..] == last && last[1..] == [];
    PointingResolved();
    assert FunctionNames(Pointing) == {};
    assert SupportedItem(Global(P), XScope, XLayout, IgnoringP, {});
    assert SupportedItems(last, XScope, XLayout, IgnoringP, {});
  }

  /** `int x; int *p = &x;` with p ignored: no stack but 0 finds the address of its own x in p. */
  lemma IgnoredAddressLost(pl: Placement, k: nat)
    requires Fits(Pointing, IgnoringP, pl) && 0 < k < NUM_STACKS
    ensures SupportedProgram(Pointing, IgnoringP)
    ensures Load(Pointing, NoMachine).Some? && Load(Globalised(Pointing, IgnoringP), NoMachine).Some?
    ensures !Mirrors(Load(Pointing, NoMachine).value.mem, Load(Globalised(Pointing, IgnoringP), NoMachine).value.mem, k, pl)
  {
    PointingSupported();
    PointingLoads();
    PointingPlaced(pl);
    Loaded(Pointing, IgnoringP, pl, 0);
    hide Load, Globalised, Fits, Mirrors;
    if Mirrors(Load(Pointing, NoMachine).value.mem, Load(Globalised(Pointing, IgnoringP), NoMachine).value.mem, k, pl) {
      MirroredIsClosed(Pointing, IgnoringP, pl, k, Object(GlobalObject("p")));
    }
  }

  lemma PointingPlaced(pl: Placement)
    requires Fits(Pointing, IgnoringP, pl)
    ensures GlobalObject("p") in pl.shared && GlobalObject("x") !in pl.shared
  {
    PointingSupported();
    ScopeProof.WalkIsResolution(IgnoringP, Pointing);
    PointingResolved();
    var last, p' := [Global(P)], Globalised(Pointing, IgnoringP);
    assert Pointing[1..] == last && last[1..] == [];
    assert ResolveItems(last, XScope, XLayout, IgnoringP) == [Global(ResolveIgnored(P, PScope))];
    assert p' == [Global(ResolveDef(X, Old, XScope))] + [Global(ResolveIgnored(P, PScope))];
    assert PlacedItem(p'[0], pl) && PlacedItem(p'[1], pl);
  }

  /**
    A call by stack k returns what the source's call returns, leaves in slot k what the source leaves, gets stuck or
    runs out of fuel when the source does, and writes nothing outside slot k, automatic and ignored variables.
  */
  lemma {:induction false} MeaningPreserved(p: Program, cmds: Commands, pl: Placement, k: nat, m: Machine,
                                            m': Machine, f: string,
                         args: seq<Val>, st: State, st': State, fuel: nat)
    requires SupportedProgram(p, cmds) && Fits(p, cmds, pl) && k < NUM_STACKS
    requires Load(p, NoMachine) == Some(m) && Load(Globalised(p, cmds), NoMachine) == Some(m')
    requires Mirrors(st.mem, st'.mem, k, pl) && CellsHold(st'.mem, pl) && st'.next == st.next
    ensures OutcomesMirror(Invoke(f, args, st, m.fns, k, fuel), Invoke(f, MapVals(args, k, pl), st', m'.fns, k, fuel),
                           st'.mem, ContextOf(p, cmds, pl, k, m, m'))
  {
    var c, c0 := ContextOf(p, cmds, pl, k, m, m'), ContextOf(p, cmds, pl, 0, m, m');
    Loaded(p, cmds, pl, 0);
    forall g | g in c.source
      ensures ClosureMirrors(g, c)
    {
      assert ClosureMirrors(g, c0);
    }
    InvokeMirrors(f, args, st, st', st'.mem, c, fuel);
  }

  // ---------------------------------------------------------------- many stacks in one memory

  datatype CallBy = CallBy(k: nat, f: string, args: seq<Val>)

  predicate ByStacks(calls: seq<CallBy>) {
    forall i :: 0 <= i < |calls| ==> calls[i].k < NUM_STACKS
  }

  /** Automatic variables end with the outermost call. */
  function NoAutos(m: Memory): Memory {
    map l | l in m && !l.Auto? :: m[l]
  }

  /** Each stack with a memory of its own: the memories in the end, and what the calls returned. */
  function RunApart(mems: seq<Memory>, calls: seq<CallBy>, fns: Functions,
                    fuel: nat): (r: Option<(seq<Memory>, seq<Val>)>)
    requires |mems| == NUM_STACKS && ByStacks(calls)
    ensures r.Some? ==> |r.value.0| == NUM_STACKS && |r.value.1| == |calls|
    decreases calls
  {
    if calls == [] then Some((mems, [])) else
    var c := calls[0];
    match Invoke(c.f, c.args, State(mems[c.k], 0), fns, c.k, fuel)
    case Returned(v, st) =>
      (match RunApart(mems[c.k := NoAutos(st.mem)], calls[1..], fns, fuel)
       case None => None
       case Some(r) => Some((r.0, [v] + r.1)))
    case _ => None
  }

  /** All stacks in one memory. */
  function RunTogether(m: Memory, calls: seq<CallBy>, fns: Functions, fuel: nat): (r: Option<(Memory, seq<Val>)>)
    ensures r.Some? ==> |r.value.1| == |calls|
    decreases calls
  {
    if calls == [] then Some((m, [])) else
    var c := calls[0];
    match Invoke(c.f, c.args, State(m, 0), fns, c.k, fuel)
    case Returned(v, st) =>
      (match RunTogether(NoAutos(st.mem), calls[1..], fns, fuel)
       case None => None
       case Some(r) => Some((r.0, [v] + r.1)))
    case _ => None
  }

  function MapCalls(calls: seq<CallBy>, pl: Placement): (r: seq<CallBy>)
    ensures |r| == |calls|
  {
    seq(|calls|, i requires 0 <= i < |calls| =>
      CallBy(calls[i].k, calls[i].f, MapVals(calls[i].args, calls[i].k, pl)))
  }

  /** Slot k of the one memory is stack k's own memory, for every k. */
  ghost predicate AllMirror(mems: seq<Memory>, m: Memory, pl: Placement)
    requires |mems| == NUM_STACKS
  {
    && CellsHold(m, pl)
    && forall k :: 0 <= k < NUM_STACKS ==> Mirrors(mems[k], m, k, pl) && NoAutos(mems[k]) == mems[k]
  }

  lemma WithoutAutosMirrors(m: Memory, m': Memory, k: nat, pl: Placement)
    requires Mirrors(m, m', k, pl)
    ensures Mirrors(NoAutos(m), NoAutos(m'), k, pl)
  {
    var n, n' := NoAutos(m), NoAutos(m');
    forall l: Loc
      ensures MirrorsAt(n, n', k, pl, l)
    {
      assert MirrorsAt(m, m', k, pl, l);
    }
  }

  /** What stack k does is nothing to stack j. */
  lemma OthersUntouched(m: Memory, m0': Memory, m1': Memory, j: nat, k: nat, pl: Placement)
    requires j != k && pl.shared == {} && NoAutos(m) == m
    requires Mirrors(m, m0', j, pl) && Kept(m0', m1', k, pl)
    ensures Mirrors(m, NoAutos(m1'), j, pl)
  {
    var n' := NoAutos(m1');
    forall l: Loc
      ensures MirrorsAt(m, n', j, pl, l)
    {
      assert MirrorsAt(m, m0', j, pl, l);
      if !l.Auto? {
        assert !Touched(MapLoc(l, j, pl), k, pl);
      } else {
        assert l !in NoAutos(m);
      }
    }
  }

  /** A call on the shared memory is a call on the caller's own. */
  lemma CallApart(mems: seq<Memory>, m: Memory, k: nat, st: State, st': State, pl: Placement)
    requires |mems| == NUM_STACKS && AllMirror(mems, m, pl) && pl.shared == {} && k < NUM_STACKS
    requires StatesMirror(st, st', m, k, pl)
    ensures AllMirror(mems[k := NoAutos(st.mem)], NoAutos(st'.mem), pl)
  {
    WithoutAutosMirrors(st.mem, st'.mem, k, pl);
    forall j: nat | j < NUM_STACKS && j != k
      ensures Mirrors(mems[j], NoAutos(st'.mem), j, pl)
    {
      OthersUntouched(mems[j], m, st'.mem, j, k, pl);
    }
    assert NoAutos(NoAutos(st.mem)) == NoAutos(st.mem);
  }

  ghost predicate RunsMirror(r: Option<(seq<Memory>, seq<Val>)>, r': Option<(Memory, seq<Val>)>, calls: seq<CallBy>,
                             pl: Placement)
    requires r.Some? ==> |r.value.0| == NUM_STACKS && |r.value.1| == |calls|
  {
    && r'.Some? == r.Some?
    && (r.Some? ==>
         && AllMirror(r.value.0, r'.value.0, pl) && |r'.value.1| == |calls|
         && forall i :: 0 <= i < |calls| ==> r'.value.1[i] == MapVal(r.value.1[i], calls[i].k, pl))
  }

  /**
    Whatever calls the stacks make in whatever order, running the rewritten program in one memory is running one source
    program per stack, each in a memory of its own.  Nothing may be ignored by the globals file.
  */
  lemma {:induction false} StacksAreApart(p: Program, cmds: Commands, pl: Placement, m: Machine, m': Machine,
                                          mems: seq<Memory>, mem: Memory, calls: seq<CallBy>, fuel: nat)
    requires SupportedProgram(p, cmds) && Fits(p, cmds, pl) && pl.shared == {}
    requires Load(p, NoMachine) == Some(m) && Load(Globalised(p, cmds), NoMachine) == Some(m')
    requires |mems| == NUM_STACKS && AllMirror(mems, mem, pl) && ByStacks(calls)
    ensures RunsMirror(RunApart(mems, calls, m.fns, fuel), RunTogether(mem, MapCalls(calls, pl), m'.fns, fuel), calls, pl)
    decreases calls
  {
    if calls != [] {
      var c, calls' := calls[0], MapCalls(calls, pl);
      var o := Invoke(c.f, c.args, State(mems[c.k], 0), m.fns, c.k, fuel);
      var o' := Invoke(c.f, MapVals(c.args, c.k, pl), State(mem, 0), m'.fns, c.k, fuel);
      MeaningPreserved(p, cmds, pl, c.k, m, m', c.f, c.args, State(mems[c.k], 0), State(mem, 0), fuel);
      assert calls'[1..] == MapCalls(calls[1..], pl);
      if o.Returned? {
        CallApart(mems, mem, c.k, o.st, o'.st, pl);
        StacksAreApart(p, cmds, pl, m, m', mems[c.k := NoAutos(o.st.mem)], NoAutos(o'.st.mem), calls[1..], fuel);
      }
    }
  }

  /** From the start: the freshly loaded rewritten program is as many freshly loaded source programs. */
  lemma {:induction false} OneProgramIsMany(p: Program, cmds: Commands, pl: Placement, m: Machine, m': Machine,
                                            calls: seq<CallBy>,
                         fuel: nat)
    requires SupportedProgram(p, cmds) && Fits(p, cmds, pl) && Closed(p, cmds) && pl.shared == {}
    requires Load(p, NoMachine) == Some(m) && Load(Globalised(p, cmds), NoMachine) == Some(m')
    requires ByStacks(calls)
    ensures RunsMirror(RunApart(seq(NUM_STACKS, _ => NoAutos(m.mem)), calls, m.fns, fuel),
                       RunTogether(NoAutos(m'.mem), MapCalls(calls, pl), m'.fns, fuel), calls, pl)
  {
    LoadPreserved(p, cmds, pl);
    forall k: nat | k < NUM_STACKS
      ensures Mirrors(NoAutos(m.mem), NoAutos(m'.mem), k, pl)
    {
      WithoutAutosMirrors(m.mem, m'.mem, k, pl);
    }
    assert NoAutos(NoAutos(m.mem)) == NoAutos(m.mem);
    StacksAreApart(p, cmds, pl, m, m', seq(NUM_STACKS, _ => NoAutos(m.mem)), NoAutos(m'.mem), calls, fuel);
  }
}
