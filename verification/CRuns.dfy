/**
  What the semantics of CLang makes of two ordinary C functions: a loop that adds up numbers, and an exchange through
  pointers.  The main results compare runs under this semantics.
*/
module CRuns {
  import opened Wrappers
  import opened CLang

  function Var(x: string): Expr {
    Id(Plain(Src(x)))
  }

  // ---------------------------------------------------------------- a loop

  const LoopBody := Then(Assign(Var("s"), Binary(Plus, Var("s"), Var("n"))),
                         Then(Assign(Var("n"), Binary(Minus, Var("n"), Num(1))), Done))
  const Loop := While(Binary(Less, Num(0), Var("n")), LoopBody)

  /** `int sum(int n) { int s = 0; while (0 < n) { s = s + n; n = n - 1; } return s; }` */
  const SumBody := Then(Autos([AutoVar("s", Some(Num(0)))]), Then(Loop, Then(Stmt.Return(Var("s")), Done)))

  function SumTo(n: nat): nat {
    if n == 0 then 0 else n + SumTo(n - 1)
  }

  predicate HasBoth(env: Env, a: Loc, b: Loc) {
    && a != b && Src("n") in env && env[Src("n")] == Variable(a) && Src("s") in env && env[Src("s")] == Variable(b)
  }

  /** The loop adds up what is in n, and leaves n at 0. */
  lemma {:induction false} LoopSums(n: nat, acc: int, env: Env, a: Loc, b: Loc, st: State, fns: Functions, k: nat,
                                    fuel: nat)
    requires HasBoth(env, a, b) && a in st.mem && b in st.mem && st.mem[a] == Int(n) && st.mem[b] == Int(acc)
    requires n <= fuel
    ensures Exec(Loop, env, st, fns, k, fuel) == Normal(st.(mem := st.mem[a := Int(0)][b := Int(acc + SumTo(n))]))
    decreases n
  {
    if n == 0 {
      assert Eval(Var("n"), env, st.mem, k) == Some(Int(0)) && Eval(Num(0), env, st.mem, k) == Some(Int(0));
      assert Eval(Loop.c, env, st.mem, k) == Some(Int(0));
      assert st.mem[a := Int(0)][b := Int(acc)] == st.mem;
      assert st.(mem := st.mem) == st;
    } else {
      var st1 := st.(mem := st.mem[b := Int(acc + n)]);
      var st2 := st1.(mem := st1.mem[a := Int(n - 1)]);
      OneTurn(n, acc, env, a, b, st, fns, k, fuel);
      LoopSums(n - 1, acc + n, env, a, b, st2, fns, k, fuel - 1);
      assert st2.mem[a := Int(0)][b := Int(acc + n + SumTo(n - 1))] == st.mem[a := Int(0)][b := Int(acc + SumTo(n))];
    }
  }

  lemma {:induction false} OneTurn(n: nat, acc: int, env: Env, a: Loc, b: Loc, st: State, fns: Functions, k: nat,
                                   fuel: nat)
    requires HasBoth(env, a, b) && a in st.mem && b in st.mem && st.mem[a] == Int(n) && st.mem[b] == Int(acc)
    requires 0 < n <= fuel
    ensures var st2 := st.(mem := st.mem[b := Int(acc + n)][a := Int(n - 1)]);
            Exec(Loop, env, st, fns, k, fuel) == Exec(Loop, env, st2, fns, k, fuel - 1)
  {
    var st1 := st.(mem := st.mem[b := Int(acc + n)]);
    var st2 := st1.(mem := st1.mem[a := Int(n - 1)]);
    assert Eval(Var("n"), env, st.mem, k) == Some(Int(n)) && Eval(Var("s"), env, st.mem, k) == Some(Int(acc));
    assert Eval(Num(0), env, st.mem, k) == Some(Int(0)) && Eval(Loop.c, env, st.mem, k) == Some(Int(1));
    assert Eval(LoopBody.first.rhs, env, st.mem, k) == Some(Int(acc + n));
    assert Eval(Var("n"), env, st1.mem, k) == Some(Int(n)) && Eval(Num(1), env, st1.mem, k) == Some(Int(1));
    assert Eval(LoopBody.rest.first.rhs, env, st1.mem, k) == Some(Int(n - 1));
    assert ExecStep(LoopBody.first, env, st, fns, k, fuel) == (Normal(st1), env);
    assert ExecStep(LoopBody.rest.first, env, st1, fns, k, fuel) == (Normal(st2), env);
    assert ExecStmts(Done, env, st2, fns, k, fuel) == Normal(st2);
    assert ExecStmts(LoopBody.rest, env, st1, fns, k, fuel) == Normal(st2);
    assert ExecStmts(LoopBody, env, st, fns, k, fuel) == Normal(st2);
  }

  /** For every n the function returns 1 + ... + n, given enough turns, and touches nothing but its own variables. */
  lemma {:induction false} SumReturns(n: nat, f: string, st: State, fns: Functions, k: nat, fuel: nat)
    requires f in fns && fns[f] == Closure(["n"], SumBody, map[]) && fuel > n
    ensures var out := Invoke(f, [Int(n)], st, fns, k, fuel);
            && out.Returned? && out.v == Int(SumTo(n)) && 2 * SumTo(n) == n * (n + 1)
            && forall l :: l !in {Auto(st.next), Auto(st.next + 1)} ==> Read(out.st.mem, l) == Read(st.mem, l)
  {
    var a, b := Auto(st.next), Auto(st.next + 1);
    var env: Env := map[Src("n") := Variable(a)];
    var st1 := State(st.mem - {a}, st.next + 1).(mem := (st.mem - {a})[a := Int(n)]);
    Bound(n, st);
    var env2 := env[Src("s") := Variable(b)];
    var st2 := State((st1.mem - {b})[b := Int(0)], st.next + 2);
    Declared(env, st1, k);
    LoopSums(n, 0, env2, a, b, st2, fns, k, fuel - 1);
    var st3 := st2.(mem := st2.mem[a := Int(0)][b := Int(SumTo(n))]);
    Ends(env2, b, SumTo(n), st3, fns, k, fuel - 1);
    Gauss(n);
    assert ExecStmts(SumBody.rest, env2, st2, fns, k, fuel - 1) == Returned(Int(SumTo(n)), st3);
    assert ExecStep(SumBody.first, env, st1, fns, k, fuel - 1) == (Normal(st2), env2);
    assert ExecStmts(SumBody, env, st1, fns, k, fuel - 1) == Returned(Int(SumTo(n)), st3);
  }

  lemma {:induction false} Bound(n: nat, st: State)
    ensures BindParams(["n"], [Int(n)], map[], st)
         == (map[Src("n") := Variable(Auto(st.next))],
             State((st.mem - {Auto(st.next)})[Auto(st.next) := Int(n)], st.next + 1))
  {
    var xs, vs: seq<Val> := ["n"], [Int(n)];
    assert xs[1..] == [] && vs[1..] == [];
  }

  lemma {:induction false} Declared(env: Env, st: State, k: nat)
    ensures DeclareAutos([AutoVar("s", Some(Num(0)))], env, st, k)
         == Some((env[Src("s") := Variable(Auto(st.next))],
                  State((st.mem - {Auto(st.next)})[Auto(st.next) := Int(0)], st.next + 1)))
  {
    var defs := [AutoVar("s", Some(Num(0)))];
    assert defs[1..] == [];
  }

  lemma {:induction false} Ends(env: Env, b: Loc, v: int, st: State, fns: Functions, k: nat, fuel: nat)
    requires Src("s") in env && env[Src("s")] == Variable(b) && b in st.mem && st.mem[b] == Int(v)
    ensures ExecStmts(Then(Stmt.Return(Var("s")), Done), env, st, fns, k, fuel) == Returned(Int(v), st)
  {
    assert ExecStep(Stmt.Return(Var("s")), env, st, fns, k, fuel) == (Returned(Int(v), st), env);
  }

  lemma {:induction false} Gauss(n: nat)
    ensures 2 * SumTo(n) == n * (n + 1)
  {
    if n > 0 {
      Gauss(n - 1);
    }
  }

  // ---------------------------------------------------------------- pointers

  /** `if (*p < *q) { int t = *p; *p = *q; *q = t; }` */
  const Exchange := Then(Autos([AutoVar("t", Some(Deref(Var("p"))))]),
                         Then(Assign(Deref(Var("p")), Deref(Var("q"))), Then(Assign(Deref(Var("q")), Var("t")), Done)))
  const Order := If(Binary(Less, Deref(Var("p")), Deref(Var("q"))), Exchange, Done)

  /** Afterwards p points to the larger of the two numbers and q to the smaller. */
  lemma {:induction false} OrderExchanges(v: int, w: int, env: Env, a: Loc, b: Loc, l: Loc, m: Loc, st: State,
                                          fns: Functions, k: nat, fuel: nat)
    requires Src("p") in env && env[Src("p")] == Variable(a) && Src("q") in env && env[Src("q")] == Variable(b)
    requires a != b && a != l && a != m && b != l && b != m && l != m
    requires Auto(st.next) !in {a, b, l, m} && {a, b, l, m} <= st.mem.Keys
    requires st.mem[a] == Ptr(l) && st.mem[b] == Ptr(m) && st.mem[l] == Int(v) && st.mem[m] == Int(w)
    ensures var out := Exec(Order, env, st, fns, k, fuel);
            && out.Normal? && {l, m} <= out.st.mem.Keys
            && out.st.mem[l] == Int(if v < w then w else v) && out.st.mem[m] == Int(if v < w then v else w)
  {
    var p, q := Var("p"), Var("q");
    assert Eval(p, env, st.mem, k) == Some(Ptr(l)) && Eval(q, env, st.mem, k) == Some(Ptr(m));
    assert Eval(Deref(p), env, st.mem, k) == Some(Int(v)) && Eval(Deref(q), env, st.mem, k) == Some(Int(w));
    assert Eval(Order.c, env, st.mem, k) == Some(Int(if v < w then 1 else 0));
    if v < w {
      var t := Auto(st.next);
      var env1, st1 := env[Src("t") := Variable(t)], State((st.mem - {t})[t := Int(v)], st.next + 1);
      var defs := [AutoVar("t", Some(Deref(Var("p"))))];
      assert Eval(p, env1, st.mem - {t}, k) == Some(Ptr(l)) && Eval(Deref(p), env1, st.mem - {t}, k) == Some(Int(v));
      assert defs[1..] == [] && DeclareAutos([], env1, st1, k) == Some((env1, st1));
      assert DeclareAutos(defs, env, st, k) == Some((env1, st1));
      assert Eval(q, env1, st1.mem, k) == Some(Ptr(m)) && Eval(p, env1, st1.mem, k) == Some(Ptr(l));
      assert Eval(Deref(q), env1, st1.mem, k) == Some(Int(w)) && Locate(Deref(p), env1, st1.mem, k) == Some(l);
      var st2 := st1.(mem := st1.mem[l := Int(w)]);
      assert Locate(Deref(q), env1, st2.mem, k) == Some(m);
      assert Eval(q, env1, st2.mem, k) == Some(Ptr(m)) && Eval(Var("t"), env1, st2.mem, k) == Some(Int(v));
      var st3 := st2.(mem := st2.mem[m := Int(v)]);
      assert ExecStep(Exchange.first, env, st, fns, k, fuel) == (Normal(st1), env1);
      assert ExecStep(Exchange.rest.first, env1, st1, fns, k, fuel) == (Normal(st2), env1);
      assert ExecStep(Exchange.rest.rest.first, env1, st2, fns, k, fuel) == (Normal(st3), env1);
      assert ExecStmts(Done, env1, st3, fns, k, fuel) == Normal(st3);
      assert ExecStmts(Exchange.rest.rest, env1, st2, fns, k, fuel) == Normal(st3);
      assert ExecStmts(Exchange.rest, env1, st1, fns, k, fuel) == Normal(st3);
      assert ExecStmts(Exchange, env, st, fns, k, fuel) == Normal(st3);
    }
  }
}
