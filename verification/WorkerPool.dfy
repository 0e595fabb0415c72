/**
  The test runner's worker pool (ns-3.15/test.py): one dispatching thread, a number of workers, an input and an output
  queue, one stop marker per worker, and a flag that a signal handler may set at any moment.

  The pool is a transition system.  An action is one step of one thread that others can observe; a run is any sequence
  of enabled actions from the start, so every interleaving is a run.
*/
module WorkerPool {

  /** What a worker sends back for a job: nothing was done, it was to be skipped, or its process ended with a code. */
  datatype Outcome = Interrupted | Skipped | Exited(code: int)

  datatype Report = Report(job: nat, outcome: Outcome)

  datatype Item = Work(job: nat) | StopMarker

  datatype Worker = Idle | Holding(item: Item) | Running(job: nat) | Reporting(report: Report) | Ended

  /** The jobs in dispatch order, each either to be skipped or to be run; and the number of workers. */
  datatype Config = Config(skip: seq<bool>, workers: nat)

  datatype State = State(
    dispatched: nat,        // jobs put on the input queue so far
    stopsPut: nat,          // stop markers put there so far
    collected: seq<Report>, // reports taken off the output queue so far
    joined: nat,            // workers joined so far
    inputQueue: seq<Item>,
    outputQueue: seq<Report>,
    workers: seq<Worker>,
    threadExit: bool)

  datatype Action =
    | Dispatch | PutStop | Collect | Join     // the main thread
    | Get(w: nat) | Handle(w: nat) | Finish(w: nat, code: int) | Put(w: nat)
    | Signal

  function Init(c: Config): State {
    State(0, 0, [], 0, [], [], seq(c.workers, _ => Idle), false)
  }

  predicate Enabled(c: Config, s: State, a: Action) {
    match a
    case Dispatch => s.dispatched < |c.skip|
    case PutStop => s.dispatched == |c.skip| && s.stopsPut < c.workers
    case Collect => s.stopsPut == c.workers && |s.collected| < |c.skip| && s.outputQueue != []
    case Join =>
      && s.stopsPut == c.workers && |s.collected| == |c.skip| && s.joined < c.workers
      && s.joined < |s.workers| && s.workers[s.joined].Ended?
    case Get(w) => w < |s.workers| && s.workers[w].Idle? && s.inputQueue != []
    case Handle(w) =>
      && w < |s.workers| && s.workers[w].Holding?
      && (s.workers[w].item.Work? ==> s.workers[w].item.job < |c.skip|)
    case Finish(w, _) => w < |s.workers| && s.workers[w].Running?
    case Put(w) => w < |s.workers| && s.workers[w].Reporting?
    case Signal => !s.threadExit
  }

  /** What a worker does with the item it got: stop, give the job back, or get on with it. */
  function Handled(c: Config, item: Item, threadExit: bool): Worker
    requires item.Work? ==> item.job < |c.skip|
  {
    match item
    case StopMarker => Ended
    case Work(j) =>
      if threadExit then Reporting(Report(j, Interrupted))
      else if c.skip[j] then Reporting(Report(j, Skipped))
      else Running(j)
  }

  function Next(c: Config, s: State, a: Action): State
    requires Enabled(c, s, a)
  {
    match a
    case Dispatch => s.(dispatched := s.dispatched + 1, inputQueue := s.inputQueue + [Work(s.dispatched)])
    case PutStop => s.(stopsPut := s.stopsPut + 1, inputQueue := s.inputQueue + [StopMarker])
    case Collect => s.(collected := s.collected + [s.outputQueue[0]], outputQueue := s.outputQueue[1..])
    case Join => s.(joined := s.joined + 1)
    case Get(w) => s.(workers := s.workers[w := Holding(s.inputQueue[0])], inputQueue := s.inputQueue[1..])
    case Handle(w) => s.(workers := s.workers[w := Handled(c, s.workers[w].item, s.threadExit)])
    case Finish(w, code) => s.(workers := s.workers[w := Reporting(Report(s.workers[w].job, Exited(code)))])
    case Put(w) => s.(workers := s.workers[w := Idle], outputQueue := s.outputQueue + [s.workers[w].report])
    case Signal => s.(threadExit := true)
  }

  ghost predicate IsRun(c: Config, actions: seq<Action>)
    decreases |actions|, 0
  {
    actions == [] || (IsRun(c, actions[..|actions| - 1]) &&
                      Enabled(c, After(c, actions[..|actions| - 1]), actions[|actions| - 1]))
  }

  /** The state a run leads to. */
  ghost function After(c: Config, actions: seq<Action>): State
    requires IsRun(c, actions)
    decreases |actions|, 1
  {
    if actions == [] then Init(c) else Next(c, After(c, actions[..|actions| - 1]), actions[|actions| - 1])
  }

  predicate Finished(c: Config, s: State) {
    s.stopsPut == c.workers && |s.collected| == |c.skip| && s.joined == c.workers
  }

  // ---------------------------------------------------------------- weighing a state

  /**
    Ways to weigh a state: by the presence of one job, of any job, or of stop markers, or by the steps that are still
    needed.  A state's weight is the sum over its queues and workers.
  */
  datatype Scale = OneJob(j: nat) | AnyJob | Stops | Steps

  function JobWeight(m: Scale, job: nat): nat
    requires m.OneJob? || m.AnyJob?
  {
    if m.AnyJob? || m.j == job then 1 else 0
  }

  function ItemWeight(m: Scale, x: Item): nat {
    match m
    case Stops => if x.StopMarker? then 1 else 0
    case Steps => if x.StopMarker? then 2 else 5
    case _ => if x.StopMarker? then 0 else JobWeight(m, x.job)
  }

  predicate TookStop(w: Worker) {
    w.Ended? || (w.Holding? && w.item.StopMarker?)
  }

  function WorkerWeight(m: Scale, w: Worker): nat {
    match m
    case Stops => if TookStop(w) then 1 else 0
    case Steps =>
      (match w
       case Idle => 0
       case Ended => 0
       case Holding(x) => if x.StopMarker? then 1 else 4
       case Running(_) => 3
       case Reporting(_) => 2)
    case _ =>
      (match w
       case Holding(Work(j)) => JobWeight(m, j)
       case Running(j) => JobWeight(m, j)
       case Reporting(r) => JobWeight(m, r.job)
       case _ => 0)
  }

  function SentWeight(m: Scale, r: Report): nat {
    if m.OneJob? || m.AnyJob? then JobWeight(m, r.job) else if m.Steps? then 1 else 0
  }

  function CollectedWeight(m: Scale, r: Report): nat {
    if m.OneJob? || m.AnyJob? then JobWeight(m, r.job) else 0
  }

  function Items(m: Scale, q: seq<Item>): nat {
    if q == [] then 0 else Items(m, q[..|q| - 1]) + ItemWeight(m, q[|q| - 1])
  }

  function Workers(m: Scale, ws: seq<Worker>): nat {
    if ws == [] then 0 else Workers(m, ws[..|ws| - 1]) + WorkerWeight(m, ws[|ws| - 1])
  }

  function Sent(m: Scale, q: seq<Report>): nat {
    if q == [] then 0 else Sent(m, q[..|q| - 1]) + SentWeight(m, q[|q| - 1])
  }

  function Collected(m: Scale, q: seq<Report>): nat {
    if q == [] then 0 else Collected(m, q[..|q| - 1]) + CollectedWeight(m, q[|q| - 1])
  }

  function Total(m: Scale, s: State): nat {
    Items(m, s.inputQueue) + Workers(m, s.workers) + Sent(m, s.outputQueue) + Collected(m, s.collected)
  }

  lemma {:induction false} ItemsPop(m: Scale, q: seq<Item>)
    requires q != []
    ensures Items(m, q) == ItemWeight(m, q[0]) + Items(m, q[1..])
  {
    if |q| > 1 {
      ItemsPop(m, q[..|q| - 1]);
      assert q[1..][..|q[1..]| - 1] == q[..|q| - 1][1..];
    }
  }

  lemma {:induction false} SentPop(m: Scale, q: seq<Report>)
    requires q != []
    ensures Sent(m, q) == SentWeight(m, q[0]) + Sent(m, q[1..])
  {
    if |q| > 1 {
      SentPop(m, q[..|q| - 1]);
      assert q[1..][..|q[1..]| - 1] == q[..|q| - 1][1..];
    }
  }

  lemma {:induction false} WorkersChange(m: Scale, ws: seq<Worker>, w: nat, x: Worker)
    requires w < |ws|
    ensures Workers(m, ws[w := x]) + WorkerWeight(m, ws[w]) == Workers(m, ws) + WorkerWeight(m, x)
  {
    var n, ws' := |ws| - 1, ws[w := x];
    if w == n {
      assert ws'[..n] == ws[..n];
    } else {
      WorkersChange(m, ws[..n], w, x);
      assert ws'[..n] == ws[..n][w := x];
    }
  }

  /** What an action adds to the weight of a state. */
  function Gain(c: Config, m: Scale, s: State, a: Action): int
    requires Enabled(c, s, a)
  {
    match a
    case Dispatch => ItemWeight(m, Work(s.dispatched))
    case PutStop => ItemWeight(m, StopMarker)
    case Get(w) => WorkerWeight(m, Holding(s.inputQueue[0])) - ItemWeight(m, s.inputQueue[0]) - WorkerWeight(m, Idle)
    case Handle(w) => WorkerWeight(m, Handled(c, s.workers[w].item, s.threadExit)) - WorkerWeight(m, s.workers[w])
    case Finish(w, code) =>
      WorkerWeight(m, Reporting(Report(s.workers[w].job, Exited(code)))) - WorkerWeight(m, s.workers[w])
    case Put(w) => WorkerWeight(m, Idle) + SentWeight(m, s.workers[w].report) - WorkerWeight(m, s.workers[w])
    case Collect => CollectedWeight(m, s.outputQueue[0]) - SentWeight(m, s.outputQueue[0])
    case _ => 0
  }

  lemma TotalAfter(c: Config, m: Scale, s: State, a: Action)
    requires Enabled(c, s, a)
    ensures Total(m, Next(c, s, a)) == Total(m, s) + Gain(c, m, s, a)
  {
    var s' := Next(c, s, a);
    match a
    case Dispatch => assert s'.inputQueue[..|s'.inputQueue| - 1] == s.inputQueue;
    case PutStop => assert s'.inputQueue[..|s'.inputQueue| - 1] == s.inputQueue;
    case Get(w) =>
      ItemsPop(m, s.inputQueue);
      WorkersChange(m, s.workers, w, s'.workers[w]);
    case Handle(w) => WorkersChange(m, s.workers, w, s'.workers[w]);
    case Finish(w, _) => WorkersChange(m, s.workers, w, s'.workers[w]);
    case Put(w) =>
      WorkersChange(m, s.workers, w, Idle);
      assert s'.outputQueue[..|s'.outputQueue| - 1] == s.outputQueue;
    case Collect =>
      SentPop(m, s.outputQueue);
      assert s'.collected[..|s'.collected| - 1] == s.collected;
    case _ =>
  }

  // ---------------------------------------------------------------- what every step keeps

  ghost predicate ReportOk(c: Config, threadExit: bool, r: Report) {
    && r.job < |c.skip|
    && (r.outcome.Interrupted? ==> threadExit)
    && (r.outcome.Skipped? ==> c.skip[r.job])
    && (r.outcome.Exited? ==> !c.skip[r.job])
  }

  ghost predicate WorkerOk(c: Config, threadExit: bool, w: Worker) {
    match w
    case Holding(Work(j)) => j < |c.skip|
    case Running(j) => j < |c.skip| && !c.skip[j]
    case Reporting(r) => ReportOk(c, threadExit, r)
    case _ => true
  }

  /** The main thread dispatches, then puts stop markers, then collects, then joins. */
  ghost predicate InPhase(c: Config, s: State) {
    && s.dispatched <= |c.skip| && s.stopsPut <= c.workers && |s.collected| <= |c.skip| && s.joined <= c.workers
    && |s.workers| == c.workers
    && (s.stopsPut > 0 ==> s.dispatched == |c.skip|)
    && (|s.collected| > 0 ==> s.stopsPut == c.workers)
    && (s.joined > 0 ==> |s.collected| == |c.skip|)
    && forall i :: 0 <= i < s.joined ==> s.workers[i].Ended?
  }

  /** Every dispatched job is in exactly one place, and so is every stop marker. */
  ghost predicate Conserved(s: State) {
    && (forall j: nat :: Total(OneJob(j), s) == if j < s.dispatched then 1 else 0)
    && Total(AnyJob, s) == s.dispatched
    && Total(Stops, s) == s.stopsPut
  }

  /** No job is behind a stop marker, and no stop marker has been taken while a job was queued. */
  ghost predicate JobsFirst(s: State) {
    && (forall i, j :: 0 <= i < j < |s.inputQueue| && s.inputQueue[i].StopMarker? ==> s.inputQueue[j].StopMarker?)
    && (Workers(Stops, s.workers) > 0 ==> forall i :: 0 <= i < |s.inputQueue| ==> s.inputQueue[i].StopMarker?)
  }

  /** Every job in the system is one that was dispatched, and every report is a possible one. */
  ghost predicate Sane(c: Config, s: State) {
    && (forall x :: x in s.inputQueue && x.Work? ==> x.job < |c.skip|)
    && (forall w :: w in s.workers ==> WorkerOk(c, s.threadExit, w))
    && (forall r :: r in s.outputQueue ==> ReportOk(c, s.threadExit, r))
    && (forall r :: r in s.collected ==> ReportOk(c, s.threadExit, r))
  }

  ghost predicate Inv(c: Config, s: State) {
    InPhase(c, s) && Conserved(s) && JobsFirst(s) && Sane(c, s)
  }

  lemma {:induction false} NoStops(q: seq<Item>)
    ensures Items(Stops, q) == 0 <==> forall i :: 0 <= i < |q| ==> q[i].Work?
  {
    if q != [] {
      NoStops(q[..|q| - 1]);
    }
  }

  lemma {:induction false} OnlyStops(q: seq<Item>)
    requires forall i :: 0 <= i < |q| ==> q[i].StopMarker?
    ensures Items(AnyJob, q) == 0
  {
    if q != [] {
      OnlyStops(q[..|q| - 1]);
    }
  }

  lemma {:induction false} AllTaken(ws: seq<Worker>)
    ensures Workers(Stops, ws) <= |ws|
    ensures Workers(Stops, ws) == |ws| <==> forall i :: 0 <= i < |ws| ==> TookStop(ws[i])
  {
    if ws != [] {
      AllTaken(ws[..|ws| - 1]);
    }
  }

  lemma {:induction false} NoneAtWork(m: Scale, ws: seq<Worker>)
    requires forall i :: 0 <= i < |ws| ==> ws[i].Idle? || (ws[i].Ended? && !m.Stops?)
    ensures Workers(m, ws) == 0
  {
    if ws != [] {
      NoneAtWork(m, ws[..|ws| - 1]);
    }
  }

  lemma InitInv(c: Config)
    ensures Inv(c, Init(c))
  {
    forall m: Scale {
      NoneAtWork(m, Init(c).workers);
    }
  }

  lemma PhaseKept(c: Config, s: State, a: Action)
    requires InPhase(c, s) && Enabled(c, s, a)
    ensures InPhase(c, Next(c, s, a))
  {
  }

  lemma SaneKept(c: Config, s: State, a: Action)
    requires Sane(c, s) && s.dispatched <= |c.skip| && Enabled(c, s, a)
    ensures Sane(c, Next(c, s, a))
  {
    var s' := Next(c, s, a);
    if a.Get? || a.Handle? || a.Finish? || a.Put? {
      assert s.workers[a.w] in s.workers;
      assert WorkerOk(c, s.threadExit, s'.workers[a.w]);
      OthersSame(s.workers, a.w, s'.workers[a.w]);
    } else if a.Collect? {
      assert s.outputQueue[0] in s.outputQueue;
    } else if a.Signal? {
      forall r | ReportOk(c, s.threadExit, r)
        ensures ReportOk(c, s'.threadExit, r)
      {
      }
    }
  }

  lemma OthersSame(ws: seq<Worker>, w: nat, x: Worker)
    requires w < |ws|
    ensures forall y :: y in ws[w := x] ==> y == x || y in ws
  {
  }

  /** A job changes its weight only by being dispatched, a stop marker only by being put on the queue. */
  lemma GainOfScale(c: Config, m: Scale, s: State, a: Action)
    requires Enabled(c, s, a) && !m.Steps?
    ensures Gain(c, m, s, a) == (
      match m
      case OneJob(j) => if a.Dispatch? && s.dispatched == j then 1 else 0
      case AnyJob => if a.Dispatch? then 1 else 0
      case _ => if a.PutStop? then 1 else 0)
  {
  }

  lemma ConservedKept(c: Config, s: State, a: Action)
    requires Conserved(s) && Enabled(c, s, a)
    ensures Conserved(Next(c, s, a))
  {
    var s' := Next(c, s, a);
    forall j: nat
      ensures Total(OneJob(j), s') == if j < s'.dispatched then 1 else 0
    {
      TotalAfter(c, OneJob(j), s, a);
      GainOfScale(c, OneJob(j), s, a);
    }
    TotalAfter(c, AnyJob, s, a);
    GainOfScale(c, AnyJob, s, a);
    TotalAfter(c, Stops, s, a);
    GainOfScale(c, Stops, s, a);
  }

  lemma JobsFirstAfterDispatch(c: Config, s: State)
    requires InPhase(c, s) && Conserved(s) && Enabled(c, s, Dispatch)
    ensures JobsFirst(Next(c, s, Dispatch))
  {
    assert Total(Stops, s) == 0;
    NoStops(s.inputQueue);
  }

  lemma JobsFirstAfterGet(c: Config, s: State, w: nat)
    requires JobsFirst(s) && Enabled(c, s, Get(w))
    ensures JobsFirst(Next(c, s, Get(w)))
  {
    var q, q' := s.inputQueue, s.inputQueue[1..];
    WorkersChange(Stops, s.workers, w, Holding(q[0]));
    assert forall i :: 0 <= i < |q'| ==> q'[i] == q[i + 1];
  }

  lemma JobsFirstAfterOthers(c: Config, s: State, a: Action)
    requires JobsFirst(s) && Enabled(c, s, a) && !a.Dispatch? && !a.Get?
    ensures JobsFirst(Next(c, s, a))
  {
    if a.Handle? || a.Finish? || a.Put? {
      WorkersChange(Stops, s.workers, a.w, Next(c, s, a).workers[a.w]);
    }
  }

  /** Every step of every thread keeps the invariant. */
  lemma NextInv(c: Config, s: State, a: Action)
    requires Inv(c, s) && Enabled(c, s, a)
    ensures Inv(c, Next(c, s, a))
  {
    PhaseKept(c, s, a);
    SaneKept(c, s, a);
    ConservedKept(c, s, a);
    if a.Dispatch? {
      JobsFirstAfterDispatch(c, s);
    } else if a.Get? {
      JobsFirstAfterGet(c, s, a.w);
    } else {
      JobsFirstAfterOthers(c, s, a);
    }
  }

  lemma {:induction false} RunInv(c: Config, actions: seq<Action>)
    requires IsRun(c, actions)
    ensures Inv(c, After(c, actions))
  {
    if actions == [] {
      InitInv(c);
    } else {
      RunInv(c, actions[..|actions| - 1]);
      NextInv(c, After(c, actions[..|actions| - 1]), actions[|actions| - 1]);
    }
  }

  lemma {:induction false} ExitIsSignalled(c: Config, actions: seq<Action>)
    requires IsRun(c, actions)
    ensures After(c, actions).threadExit <==> Signal in actions
  {
    if actions != [] {
      var front, last := actions[..|actions| - 1], actions[|actions| - 1];
      ExitIsSignalled(c, front);
      assert actions == front + [last];
    }
  }

  /** In any run, a worker that handles a job after the signal reports it interrupted; before, it skips or runs it. */
  lemma {:induction false} HandledInRun(c: Config, actions: seq<Action>, w: nat)
    requires IsRun(c, actions) && Enabled(c, After(c, actions), Handle(w))
    ensures var item, now := After(c, actions).workers[w].item, Next(c, After(c, actions), Handle(w)).workers[w];
            && (item.StopMarker? ==> now == Ended)
            && (item.Work? && Signal in actions ==> now == Reporting(Report(item.job, Interrupted)))
            && (item.Work? && Signal !in actions ==>
                  now == if c.skip[item.job] then Reporting(Report(item.job, Skipped)) else Running(item.job))
  {
    ExitIsSignalled(c, actions);
  }

  /** Step k of a run is where worker w came by a report, and the report says what happened there. */
  ghost predicate Happened(c: Config, actions: seq<Action>, k: nat, w: nat, r: Report) {
    && k < |actions| && IsRun(c, actions[..k])
    && w < |After(c, actions[..k]).workers|
    && var worker := After(c, actions[..k]).workers[w];
       match r.outcome
       case Interrupted => actions[k] == Handle(w) && worker == Holding(Work(r.job)) && Signal in actions[..k]
       case Skipped =>
         && actions[k] == Handle(w) && worker == Holding(Work(r.job)) && Signal !in actions[..k]
         && r.job < |c.skip| && c.skip[r.job]
       case Exited(code) => actions[k] == Finish(w, code) && worker == Running(r.job)
  }

  ghost predicate HasReport(s: State, r: Report) {
    r in s.collected || r in s.outputQueue || Reporting(r) in s.workers
  }

  /** No report is made up or altered on its way: each tells what a worker did with that very job. */
  lemma {:induction false} ReportsHappened(c: Config, actions: seq<Action>, r: Report) returns (k: nat, w: nat)
    requires IsRun(c, actions) && HasReport(After(c, actions), r)
    ensures Happened(c, actions, k, w, r)
  {
    var front, last := actions[..|actions| - 1], actions[|actions| - 1];
    if HasReport(After(c, front), r) {
      k, w := ReportsHappened(c, front, r);
      assert actions[..k] == front[..k];
    } else {
      k := |front|;
      w := ReportMade(c, After(c, front), last, r);
      ExitIsSignalled(c, front);
    }
  }

  lemma ReportMade(c: Config, s: State, a: Action, r: Report) returns (w: nat)
    requires Enabled(c, s, a) && !HasReport(s, r) && HasReport(Next(c, s, a), r)
    ensures w < |s.workers|
    ensures match r.outcome
            case Interrupted => a == Handle(w) && s.workers[w] == Holding(Work(r.job)) && s.threadExit
            case Skipped =>
              && a == Handle(w) && s.workers[w] == Holding(Work(r.job)) && !s.threadExit
              && r.job < |c.skip| && c.skip[r.job]
            case Exited(code) => a == Finish(w, code) && s.workers[w] == Running(r.job)
  {
    w := if a.Handle? || a.Finish? then a.w else 0;
  }

  /** No stop marker is ever taken while a real job is still queued. */
  lemma {:induction false} StopTakenOnlyWhenNoJobQueued(c: Config, actions: seq<Action>, w: nat)
    requires IsRun(c, actions) && Enabled(c, After(c, actions), Get(w))
    requires After(c, actions).inputQueue[0].StopMarker?
    ensures var s := After(c, actions);
            s.dispatched == |c.skip| && forall i :: 0 <= i < |s.inputQueue| ==> !s.inputQueue[i].Work?
  {
    RunInv(c, actions);
    ItemsPop(Stops, After(c, actions).inputQueue);
  }

  // ---------------------------------------------------------------- every run ends

  /** A bound on the steps that can still be taken. */
  function Remaining(c: Config, s: State): nat
    requires s.dispatched <= |c.skip| && s.stopsPut <= c.workers && s.joined <= c.workers
  {
    6 * (|c.skip| - s.dispatched) + 3 * (c.workers - s.stopsPut) + (c.workers - s.joined)
    + Total(Steps, s) + if s.threadExit then 0 else 1
  }

  lemma StepsRunOut(c: Config, s: State, a: Action)
    requires InPhase(c, s) && Enabled(c, s, a) && InPhase(c, Next(c, s, a))
    ensures Remaining(c, Next(c, s, a)) < Remaining(c, s)
  {
    TotalAfter(c, Steps, s, a);
  }

  /** Every run is finite, whatever the interleaving and whenever the signal comes. */
  lemma {:induction false} RunsAreBounded(c: Config, actions: seq<Action>)
    requires IsRun(c, actions)
    ensures Inv(c, After(c, actions))
    ensures |actions| + Remaining(c, After(c, actions)) <= 6 * |c.skip| + 4 * c.workers + 1
  {
    RunInv(c, actions);
    if actions == [] {
      NoneAtWork(Steps, Init(c).workers);
    } else {
      var front := actions[..|actions| - 1];
      RunsAreBounded(c, front);
      StepsRunOut(c, After(c, front), actions[|actions| - 1]);
    }
  }

  // ---------------------------------------------------------------- no run is stuck

  predicate Busy(w: Worker) {
    w.Holding? || w.Running? || w.Reporting?
  }

  /** A thread that can move without waiting for a signal. */
  lemma NoDeadlock(c: Config, s: State) returns (a: Action)
    requires c.workers >= 1 && Inv(c, s) && !Finished(c, s)
    ensures Enabled(c, s, a) && !a.Signal?
  {
    if s.dispatched < |c.skip| {
      return Dispatch;
    }
    if s.stopsPut < c.workers {
      return PutStop;
    }
    if w :| 0 <= w < |s.workers| && Busy(s.workers[w]) {
      assert s.workers[w] in s.workers;
      return if s.workers[w].Holding? then Handle(w) else if s.workers[w].Running? then Finish(w, 0) else Put(w);
    }
    if w :| 0 <= w < |s.workers| && s.workers[w].Idle? {
      IdleWorkerHasWork(s, w);
      return Get(w);
    }
    if |s.collected| < |c.skip| {
      EndedWorkersReported(s);
      return Collect;
    }
    return Join;
  }

  lemma {:induction false} ReportTotals(q: seq<Report>)
    ensures Sent(AnyJob, q) == |q| && Collected(AnyJob, q) == |q|
    ensures Sent(Stops, q) == 0 && Collected(Stops, q) == 0
  {
    if q != [] {
      ReportTotals(q[..|q| - 1]);
    }
  }

  lemma IdleWorkerHasWork(s: State, w: nat)
    requires Conserved(s) && w < |s.workers| == s.stopsPut && s.workers[w].Idle?
    ensures s.inputQueue != []
  {
    AllTaken(s.workers);
    ReportTotals(s.outputQueue);
    ReportTotals(s.collected);
  }

  lemma EndedWorkersReported(s: State)
    requires Conserved(s) && JobsFirst(s) && |s.workers| > 0
    requires forall i :: 0 <= i < |s.workers| ==> s.workers[i].Ended?
    ensures |s.outputQueue| + |s.collected| == s.dispatched
  {
    AllTaken(s.workers);
    NoneAtWork(AnyJob, s.workers);
    OnlyStops(s.inputQueue);
    ReportTotals(s.outputQueue);
    ReportTotals(s.collected);
  }

  ghost predicate Reported(j: nat, reports: seq<Report>) {
    exists i :: 0 <= i < |reports| && reports[i].job == j
  }

  /** One report on each of the first n jobs, and no other. */
  ghost predicate OnceEach(n: nat, reports: seq<Report>) {
    && |reports| == n
    && (forall j: nat :: j < n ==> Reported(j, reports))
    && forall i, k :: 0 <= i < k < |reports| ==> reports[i].job != reports[k].job
  }

  lemma {:induction false} Occurs(j: nat, reports: seq<Report>)
    ensures Collected(OneJob(j), reports) > 0 <==> Reported(j, reports)
  {
    if reports != [] {
      var n := |reports| - 1;
      Occurs(j, reports[..n]);
      if Collected(OneJob(j), reports[..n]) > 0 {
        var i :| 0 <= i < n && reports[..n][i].job == j;
        assert reports[i].job == j;
      }
    }
  }

  lemma {:induction false} OccursTwice(reports: seq<Report>, i: nat, k: nat)
    requires i < k < |reports| && reports[i].job == reports[k].job
    ensures Collected(OneJob(reports[i].job), reports) >= 2
  {
    var n, j := |reports| - 1, reports[i].job;
    if k == n {
      assert reports[..n][i].job == j;
      Occurs(j, reports[..n]);
    } else {
      OccursTwice(reports[..n], i, k);
    }
  }

  lemma FinishedIsClean(c: Config, s: State)
    requires c.workers >= 1 && Inv(c, s) && Finished(c, s)
    ensures OnceEach(|c.skip|, s.collected)
    ensures s.inputQueue == [] && s.outputQueue == [] && forall w :: w in s.workers ==> w.Ended?
  {
    EndedWorkersReported(s);
    AllTaken(s.workers);
    ReportTotals(s.outputQueue);
    ReportTotals(s.collected);
    NoStops(s.inputQueue);
    forall j: nat | j < |c.skip|
      ensures Reported(j, s.collected)
    {
      OneJobLeft(s, j);
      Occurs(j, s.collected);
    }
    forall i, k | 0 <= i < k < |s.collected|
      ensures s.collected[i].job != s.collected[k].job
    {
      if s.collected[i].job == s.collected[k].job {
        OneJobLeft(s, s.collected[i].job);
        OccursTwice(s.collected, i, k);
      }
    }
  }

  lemma OneJobLeft(s: State, j: nat)
    requires Conserved(s) && s.inputQueue == [] && s.outputQueue == []
    requires forall i :: 0 <= i < |s.workers| ==> s.workers[i].Ended?
    ensures Collected(OneJob(j), s.collected) == if j < s.dispatched then 1 else 0
  {
    NoneAtWork(OneJob(j), s.workers);
    assert Total(OneJob(j), s) == if j < s.dispatched then 1 else 0;
  }

  /** Where a run that cannot go on has got to: each job is collected exactly once and every worker has ended. */
  lemma {:induction false} MaximalRunFinishes(c: Config, actions: seq<Action>)
    requires c.workers >= 1 && IsRun(c, actions)
    requires forall a :: Enabled(c, After(c, actions), a) ==> a.Signal?
    ensures var s := After(c, actions);
            && Finished(c, s) && OnceEach(|c.skip|, s.collected)
            && s.inputQueue == [] && s.outputQueue == []
            && forall w :: w in s.workers ==> w.Ended?
  {
    RunInv(c, actions);
    var s := After(c, actions);
    if !Finished(c, s) {
      var a := NoDeadlock(c, s);
      assert false;
    }
    FinishedIsClean(c, s);
  }

  // ---------------------------------------------------------------- the results

  /** The counters that the collecting loop keeps. */
  datatype Tally = Tally(passed: nat, skipped: nat, failed: nat, valgrind: nat, crashed: nat)

  datatype Status = Dropped | Pass | Skip | Fail | Valgr | Crash

  function StatusOf(o: Outcome): Status {
    match o
    case Interrupted => Dropped
    case Skipped => Skip
    case Exited(code) => if code == 0 then Pass else if code == 1 then Fail else if code == 2 then Valgr else Crash
  }

  /** The number of reports with a given status. */
  function Count(reports: seq<Report>, status: Status): nat {
    |set i | 0 <= i < |reports| && StatusOf(reports[i].outcome) == status|
  }

  lemma CountStep(reports: seq<Report>, r: Report, status: Status)
    ensures Count(reports + [r], status) == Count(reports, status) + if StatusOf(r.outcome) == status then 1 else 0
  {
    var all := reports + [r];
    var a, b := (set i | 0 <= i < |all| && StatusOf(all[i].outcome) == status),
                (set i | 0 <= i < |reports| && StatusOf(reports[i].outcome) == status);
    if StatusOf(r.outcome) == status {
      assert a == b + {|reports|};
    } else {
      assert a == b;
    }
  }

  /** Which outcomes each status stands for. */
  lemma CountsAre(reports: seq<Report>)
    ensures Count(reports, Pass) == |set i | 0 <= i < |reports| && reports[i].outcome == Exited(0)|
    ensures Count(reports, Fail) == |set i | 0 <= i < |reports| && reports[i].outcome == Exited(1)|
    ensures Count(reports, Valgr) == |set i | 0 <= i < |reports| && reports[i].outcome == Exited(2)|
    ensures Count(reports, Crash)
         == |set i | 0 <= i < |reports| && reports[i].outcome.Exited? && reports[i].outcome.code !in {0, 1, 2}|
    ensures Count(reports, Skip) == |set i | 0 <= i < |reports| && reports[i].outcome == Skipped|
    ensures Count(reports, Dropped) == |set i | 0 <= i < |reports| && reports[i].outcome == Interrupted|
  {
    assert (set i | 0 <= i < |reports| && StatusOf(reports[i].outcome) == Pass)
        == (set i | 0 <= i < |reports| && reports[i].outcome == Exited(0));
    assert (set i | 0 <= i < |reports| && StatusOf(reports[i].outcome) == Fail)
        == (set i | 0 <= i < |reports| && reports[i].outcome == Exited(1));
    assert (set i | 0 <= i < |reports| && StatusOf(reports[i].outcome) == Valgr)
        == (set i | 0 <= i < |reports| && reports[i].outcome == Exited(2));
    assert (set i | 0 <= i < |reports| && StatusOf(reports[i].outcome) == Crash)
        == (set i | 0 <= i < |reports| && reports[i].outcome.Exited? && reports[i].outcome.code !in {0, 1, 2});
    assert (set i | 0 <= i < |reports| && StatusOf(reports[i].outcome) == Skip)
        == (set i | 0 <= i < |reports| && reports[i].outcome == Skipped);
    assert (set i | 0 <= i < |reports| && StatusOf(reports[i].outcome) == Dropped)
        == (set i | 0 <= i < |reports| && reports[i].outcome == Interrupted);
  }

  /** The collecting loop.  A report that came back interrupted is dropped without being counted. */
  method CollectResults(reports: seq<Report>) returns (t: Tally)
    ensures t.passed == |set i | 0 <= i < |reports| && reports[i].outcome == Exited(0)|
    ensures t.failed == |set i | 0 <= i < |reports| && reports[i].outcome == Exited(1)|
    ensures t.valgrind == |set i | 0 <= i < |reports| && reports[i].outcome == Exited(2)|
    ensures t.crashed
         == |set i | 0 <= i < |reports| && reports[i].outcome.Exited? && reports[i].outcome.code !in {0, 1, 2}|
    ensures t.skipped == |set i | 0 <= i < |reports| && reports[i].outcome == Skipped|
  {
    t := Tally(0, 0, 0, 0, 0);
    for i := 0 to |reports|
      invariant t.passed == Count(reports[..i], Pass) && t.skipped == Count(reports[..i], Skip)
      invariant t.failed == Count(reports[..i], Fail) && t.valgrind == Count(reports[..i], Valgr)
      invariant t.crashed == Count(reports[..i], Crash)
    {
      var job := reports[i];
      assert reports[..i + 1] == reports[..i] + [job];
      forall status {
        CountStep(reports[..i], job, status);
      }
      if job.outcome.Interrupted? {
        continue;
      }
      if job.outcome.Skipped? {
        t := t.(skipped := t.skipped + 1);
      } else if job.outcome.code == 0 {
        t := t.(passed := t.passed + 1);
      } else if job.outcome.code == 1 {
        t := t.(failed := t.failed + 1);
      } else if job.outcome.code == 2 {
        t := t.(valgrind := t.valgrind + 1);
      } else {
        t := t.(crashed := t.crashed + 1);
      }
    }
    assert reports[..|reports|] == reports;
    CountsAre(reports);
  }

  function ExitCode(reports: seq<Report>, total: nat): int {
    if Count(reports, Pass) + Count(reports, Skip) == total then 0 else 1
  }

  /** Each collected report is counted once, under one status. */
  lemma {:induction false} EveryReportCounted(reports: seq<Report>)
    ensures Count(reports, Pass) + Count(reports, Skip) + Count(reports, Fail) + Count(reports, Valgr)
            + Count(reports, Crash) + Count(reports, Dropped) == |reports|
  {
    if reports != [] {
      var front, last := reports[..|reports| - 1], reports[|reports| - 1];
      EveryReportCounted(front);
      assert reports == front + [last];
      forall status {
        CountStep(front, last, status);
      }
    }
  }

  lemma NoneWithStatus(reports: seq<Report>, status: Status)
    ensures Count(reports, status) == 0 <==> forall r :: r in reports ==> StatusOf(r.outcome) != status
  {
    var these := set i | 0 <= i < |reports| && StatusOf(reports[i].outcome) == status;
    if these == {} {
      forall r | r in reports
        ensures StatusOf(r.outcome) != status
      {
        var i :| 0 <= i < |reports| && reports[i] == r;
        assert i !in these;
      }
    } else {
      var i :| i in these;
      assert reports[i] in reports;
    }
  }

  lemma ExitCodeIff(reports: seq<Report>)
    ensures ExitCode(reports, |reports|) == 0
       <==> forall r :: r in reports ==> StatusOf(r.outcome) == Pass || StatusOf(r.outcome) == Skip
  {
    EveryReportCounted(reports);
    NoneWithStatus(reports, Fail);
    NoneWithStatus(reports, Valgr);
    NoneWithStatus(reports, Crash);
    NoneWithStatus(reports, Dropped);
  }

  predicate CameBackWell(skip: seq<bool>, rs: seq<Report>, j: nat)
    requires j < |skip|
  {
    Report(j, if skip[j] then Skipped else Exited(0)) in rs
  }

  lemma ExitCodeMeans(c: Config, threadExit: bool, rs: seq<Report>)
    requires OnceEach(|c.skip|, rs)
    requires forall r :: r in rs ==> ReportOk(c, threadExit, r)
    ensures ExitCode(rs, |c.skip|) == 0 <==> forall j: nat :: j < |c.skip| ==> CameBackWell(c.skip, rs, j)
  {
    ExitCodeIff(rs);
    if ExitCode(rs, |c.skip|) == 0 {
      forall j: nat | j < |c.skip|
        ensures CameBackWell(c.skip, rs, j)
      {
        assert Reported(j, rs);
        var i :| 0 <= i < |rs| && rs[i].job == j;
        assert rs[i] in rs;
      }
    } else {
      var r :| r in rs && StatusOf(r.outcome) != Pass && StatusOf(r.outcome) != Skip;
      var i :| 0 <= i < |rs| && rs[i] == r;
      assert !CameBackWell(c.skip, rs, r.job);
    }
  }

  /**
    Accounting over whole runs: when nothing more can happen, each of the jobs is in exactly one of six groups, by how
    it came back, and the exit code is 0 if each was skipped or exited with 0, and 1 otherwise.
  */
  lemma {:induction false} ResultsOfRun(c: Config, actions: seq<Action>)
    requires c.workers >= 1 && IsRun(c, actions)
    requires forall a :: Enabled(c, After(c, actions), a) ==> a.Signal?
    ensures var rs := After(c, actions).collected;
            && |set i | 0 <= i < |rs| && rs[i].outcome == Exited(0)|
               + |set i | 0 <= i < |rs| && rs[i].outcome == Skipped|
               + |set i | 0 <= i < |rs| && rs[i].outcome == Exited(1)|
               + |set i | 0 <= i < |rs| && rs[i].outcome == Exited(2)|
               + |set i | 0 <= i < |rs| && rs[i].outcome.Exited? && rs[i].outcome.code !in {0, 1, 2}|
               + |set i | 0 <= i < |rs| && rs[i].outcome == Interrupted| == |c.skip|
            && ExitCode(rs, |c.skip|)
               == if forall j: nat :: j < |c.skip| ==> Report(j, if c.skip[j] then Skipped else Exited(0)) in rs then 0 else 1
  {
    MaximalRunFinishes(c, actions);
    RunInv(c, actions);
    var s := After(c, actions);
    EveryReportCounted(s.collected);
    CountsAre(s.collected);
    ExitCodeMeans(c, s.threadExit, s.collected);
    assert forall j: nat :: j < |c.skip| ==>
      (CameBackWell(c.skip, s.collected, j) <==> Report(j, if c.skip[j] then Skipped else Exited(0)) in s.collected);
  }
}
