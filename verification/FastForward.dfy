/**
  Fast-forward playback (netanim-3.101/animator/animatormode.cpp): after each tick the clock jumps straight to the
  next packet start or node sample instead of advancing at a fixed rate.
*/
module FastForward {
  import opened Wrappers
  import opened PacketScan

  /**
    The jump: the nearer of the next packet start and the next node sample.  A packet delta of 0 means that no
    packet is to come, and a negative delta that there is nothing to wait for.
  */
  function Jump(futurePacketDelta: real, futureNodeDelta: real): real {
    var delta := if futurePacketDelta >= 0.0 then futurePacketDelta else 0.0;
    if futureNodeDelta >= 0.0 then
      if delta != 0.0 then if futureNodeDelta < delta then futureNodeDelta else delta
      else futureNodeDelta
    else delta
  }

  function NextTime(t: real, futurePacketDelta: real, futureNodeDelta: real, maxTime: real): real {
    var delta := Jump(futurePacketDelta, futureNodeDelta);
    if delta == 0.0 then maxTime + 0.001 else t + delta
  }

  /**
    With a packet still to come inside the simulation, the next tick is at or before its start exactly when the
    node delta is not 0.  A scene without nodes reports 0, its initial value, and the rest of the trace is skipped.
  */
  lemma JumpReachesPacketIff(t: real, futurePacketDelta: real, futureNodeDelta: real, maxTime: real)
    requires futurePacketDelta > 0.0 && t + futurePacketDelta <= maxTime
    ensures t < NextTime(t, futurePacketDelta, futureNodeDelta, maxTime) <= t + futurePacketDelta
       <==> futureNodeDelta != 0.0
  {
  }

  /** The next tick in full: at the nearer of a start and a sample that are to come, or past the end. */
  lemma {:induction false} NextTimeIs(t: real, futurePacketDelta: real, futureNodeDelta: real, maxTime: real)
    ensures var next := NextTime(t, futurePacketDelta, futureNodeDelta, maxTime);
            && (futureNodeDelta == 0.0 || (futurePacketDelta <= 0.0 && futureNodeDelta < 0.0) ==> next == maxTime + 0.001)
            && (futurePacketDelta > 0.0 && futureNodeDelta < 0.0 ==> next == t + futurePacketDelta)
            && (futurePacketDelta <= 0.0 && futureNodeDelta > 0.0 ==> next == t + futureNodeDelta)
            && (futurePacketDelta > 0.0 && futureNodeDelta > 0.0 ==>
                  next == t + if futureNodeDelta < futurePacketDelta then futureNodeDelta else futurePacketDelta)
  {
  }

  /** The instants at which something happens: packet starts and node samples. */
  function Events(ps: seq<Packet>, samples: set<real>): set<real> {
    (set i | 0 <= i < |ps| :: ps[i].fbTx) + samples
  }

  /** A positive node delta is the distance to some later sample; others say that none is to come. */
  ghost predicate NodeDeltas(nodeDelta: real -> real, samples: set<real>) {
    forall t :: nodeDelta(t) > 0.0 ==> t + nodeDelta(t) in samples
  }

  /** A jump lands on an event with no packet start in between, unless the node delta is 0. */
  lemma JumpLandsOnEvent(ps: seq<Packet>, t: real, nodeDelta: real -> real, samples: set<real>)
    requires InTraceOrder(ps) && NodeDeltas(nodeDelta, samples)
    requires forall i :: 0 <= i < |ps| ==> ps[i].lbRx.Some? ==> ps[i].fbTx <= ps[i].lbRx.value
    ensures var delta := Jump(FutureDelta(ps, t), nodeDelta(t));
            && (delta != 0.0 ==> delta > 0.0 && t + delta in Events(ps, samples))
            && if nodeDelta(t) == 0.0 && ComesLater(ps, t) then delta == 0.0
               else forall i :: 0 <= i < |ps| && ps[i].fbTx > t ==> delta != 0.0 && t + delta <= ps[i].fbTx
  {
    var n := FirstFuture(ps, t);
    forall i | 0 <= i < |ps| && ps[i].fbTx > t
      ensures n <= i
    {
      assert Classify(ps[i], t) == Future;
    }
    if n < |ps| {
      assert t + FutureDelta(ps, t) == ps[n].fbTx;
    }
  }

  predicate ComesLater(ps: seq<Packet>, t: real) {
    exists i :: 0 <= i < |ps| && ps[i].fbTx > t
  }

  lemma {:induction false} IncreasingCount(ticks: seq<real>, pool: set<real>)
    requires forall i, j :: 0 <= i < j < |ticks| ==> ticks[i] < ticks[j]
    requires forall i :: 0 <= i < |ticks| ==> ticks[i] in pool
    ensures |ticks| <= |pool|
  {
    if ticks != [] {
      var rest, last := ticks[..|ticks| - 1], ticks[|ticks| - 1];
      IncreasingCount(rest, pool - {last});
    }
  }

  class AnimatorMode {
    const scene: AnimatorScene
    var currentTime: real
    var currentUpdateRate: real
    var parsedMaxSimulationTime: real
    var fastFwd: bool
    var playing: bool
    var simulationCompleted: bool

    constructor (s: AnimatorScene, maxTime: real, rate: real)
      ensures scene == s && currentTime == 0.0 && parsedMaxSimulationTime == maxTime && currentUpdateRate == rate
      ensures fastFwd && !playing && !simulationCompleted
    {
      scene := s;
      currentTime, currentUpdateRate, parsedMaxSimulationTime := 0.0, rate, maxTime;
      fastFwd, playing, simulationCompleted := true, false, false;
    }

    method ResetSlot()
      requires scene.Valid()
      modifies `currentTime, `playing, scene
      ensures scene.Valid() && scene.packets == old(scene.packets)
      ensures currentTime == 0.0 && !playing && scene.animated == Visible(scene.packets, 0.0)
    {
      scene.SoftReset();
      currentTime := 0.0;
      playing := false;
      scene.TimeToUpdate(0.0);
    }

    /** One timer event.  The node delta is what the mobility manager reports after the tick. */
    method UpdateRateTimeoutSlot(futureNodeDelta: real) returns (shown: set<nat>)
      requires scene.Valid()
      modifies `currentTime, `playing, `simulationCompleted, scene
      ensures scene.Valid() && scene.packets == old(scene.packets)
      ensures shown == if old(playing) then Visible(scene.packets, old(currentTime)) else old(scene.animated)
      ensures fastFwd ==>
                var futurePacketDelta := if old(playing) && scene.packets != []
                                         then FutureDelta(scene.packets, old(currentTime))
                                         else old(scene.futurePacketTimeDelta);
                var next := NextTime(old(currentTime), futurePacketDelta, futureNodeDelta, parsedMaxSimulationTime);
                Advanced(next, shown, old(playing), old(simulationCompleted))
      ensures !fastFwd ==>
                Advanced(old(currentTime) + currentUpdateRate, shown, old(playing), old(simulationCompleted))
    {
      if playing {
        scene.TimeToUpdate(currentTime);
      }
      shown := scene.animated;
      if !fastFwd {
        currentTime := currentTime + currentUpdateRate;
      } else {
        var delta := 0.0;
        var futurePacketDelta := scene.futurePacketTimeDelta;
        if futurePacketDelta >= 0.0 {
          delta := futurePacketDelta;
        }
        if futureNodeDelta >= 0.0 {
          if delta != 0.0 {
            delta := if futureNodeDelta < delta then futureNodeDelta else delta;
          } else {
            delta := futureNodeDelta;
          }
        }
        currentTime := currentTime + delta;
        if delta == 0.0 {
          currentTime := parsedMaxSimulationTime + 0.001;
        }
      }
      if currentTime > parsedMaxSimulationTime {
        ResetSlot();
        simulationCompleted := true;
      }
    }

    /** The clock moved to the given time, or the run is over and everything is back at 0. */
    ghost predicate Advanced(next: real, shown: set<nat>, playingBefore: bool, completedBefore: bool)
      reads this, scene
    {
      if next > parsedMaxSimulationTime then
        simulationCompleted && !playing && currentTime == 0.0 && scene.animated == Visible(scene.packets, 0.0)
      else
        currentTime == next && playing == playingBefore && simulationCompleted == completedBefore && scene.animated == shown
    }
  }

  /** The record of a run: its ticks rise, each is an event or 0, and what was shown is what was on air. */
  ghost predicate IsRecord(ps: seq<Packet>, events: set<real>, ticks: seq<real>, shown: seq<set<nat>>) {
    && |ticks| == |shown|
    && (forall i, j :: 0 <= i < j < |ticks| ==> ticks[i] < ticks[j])
    && (forall i :: 0 <= i < |ticks| ==> ticks[i] in events + {0.0} && shown[i] == Visible(ps, ticks[i]))
    && (ticks != [] ==> ticks[0] == 0.0)
  }

  ghost predicate ShownAtStart(ps: seq<Packet>, ticks: seq<real>, shown: seq<set<nat>>, i: nat)
    requires |ticks| == |shown| && i < |ps|
  {
    exists k :: 0 <= k < |ticks| && ticks[k] == ps[i].fbTx && i in shown[k]
  }

  ghost predicate NeverShown(shown: seq<set<nat>>, i: nat) {
    forall k :: 0 <= k < |shown| ==> i !in shown[k]
  }

  /** A run has got to time t, and every earlier start was shown. */
  ghost predicate Covers(ps: seq<Packet>, ticks: seq<real>, shown: seq<set<nat>>, t: real)
    requires |ticks| == |shown|
  {
    && (forall i :: 0 <= i < |ticks| ==> ticks[i] < t)
    && forall i: nat :: i < |ps| && ps[i].fbTx < t ==> ShownAtStart(ps, ticks, shown, i)
  }

  /** At no tick with a start still to come is the node delta 0. */
  predicate NothingSkipped(ps: seq<Packet>, nodeDelta: real -> real, ticks: seq<real>) {
    forall k :: 0 <= k < |ticks| ==> !(nodeDelta(ticks[k]) == 0.0 && ComesLater(ps, ticks[k]))
  }

  lemma RecordGrows(ps: seq<Packet>, events: set<real>, ticks: seq<real>, shown: seq<set<nat>>, t: real)
    requires IsRecord(ps, events, ticks, shown) && Covers(ps, ticks, shown, t)
    requires t in events + {0.0} && (ticks == [] ==> t == 0.0)
    ensures IsRecord(ps, events, ticks + [t], shown + [Visible(ps, t)])
  {
  }

  lemma CoverGrows(ps: seq<Packet>, ticks: seq<real>, shown: seq<set<nat>>, t: real, now: set<nat>, next: real)
    requires |ticks| == |shown| && Covers(ps, ticks, shown, t) && t < next
    requires forall i: nat :: i < |ps| && ps[i].fbTx == t ==> i in now
    requires forall i: nat :: i < |ps| && ps[i].fbTx > t ==> next <= ps[i].fbTx
    ensures Covers(ps, ticks + [t], shown + [now], next)
  {
    var ticks', shown' := ticks + [t], shown + [now];
    forall i: nat | i < |ps| && ps[i].fbTx < next
      ensures ShownAtStart(ps, ticks', shown', i)
    {
      if ps[i].fbTx < t {
        assert ShownAtStart(ps, ticks, shown, i);
        var k :| 0 <= k < |ticks| && ticks[k] == ps[i].fbTx && i in shown[k];
        assert ticks'[k] == ps[i].fbTx && i in shown'[k];
      } else {
        assert ticks'[|ticks|] == ps[i].fbTx && i in shown'[|ticks|];
      }
    }
  }

  /** What starts after the last tick was on display at none. */
  lemma LaterNeverShown(ps: seq<Packet>, events: set<real>, ticks: seq<real>, shown: seq<set<nat>>) returns (i: nat)
    requires IsRecord(ps, events, ticks, shown) && ticks != [] && ComesLater(ps, ticks[|ticks| - 1])
    ensures i < |ps| && NeverShown(shown, i) && !ShownAtStart(ps, ticks, shown, i)
  {
    i :| 0 <= i < |ps| && ps[i].fbTx > ticks[|ticks| - 1];
    forall k | 0 <= k < |shown|
      ensures i !in shown[k]
    {
      assert ticks[k] < ps[i].fbTx;
      assert !OnAir(ps[i], ticks[k]);
    }
  }

  ghost function Later(events: set<real>, t: real): set<real> {
    set e | e in events && e > t
  }

  lemma FewerLater(events: set<real>, t: real, next: real)
    requires next in events && t < next
    ensures |Later(events, next)| < |Later(events, t)|
  {
    var a, b := Later(events, next), Later(events, t);
    assert next in b - a;
    assert b == a + (b - a);
  }

  /** A packet is seen at its own start. */
  lemma SeenAtStart(ps: seq<Packet>, t: real)
    requires InTraceOrder(ps)
    requires forall i :: 0 <= i < |ps| && ps[i].lbRx.Some? ==> ps[i].fbTx <= ps[i].lbRx.value
    ensures forall i: nat :: i < |ps| && ps[i].fbTx == t ==> i in Visible(ps, t)
  {
    ScanIsFilter(ps, t);
    forall i: nat | i < |ps| && ps[i].fbTx == t
      ensures i in Visible(ps, t)
    {
      assert i in PlainFilter(ps, t);
    }
  }

  /** Where a run stands: at a time, or at its end. */
  ghost predicate Stands(ps: seq<Packet>, nodeDelta: real -> real, events: set<real>, ticks: seq<real>,
                         shown: seq<set<nat>>, t: real, maxTime: real, over: bool) {
    && IsRecord(ps, events, ticks, shown)
    && if !over then
         && t in events + {0.0} && t <= maxTime && (ticks == [] ==> t == 0.0)
         && Covers(ps, ticks, shown, t) && NothingSkipped(ps, nodeDelta, ticks)
       else
         && ticks != []
         && if NothingSkipped(ps, nodeDelta, ticks) then Covers(ps, ticks, shown, maxTime + 0.001)
            else ComesLater(ps, ticks[|ticks| - 1])
  }

  /** One tick takes a run from one standing to the next. */
  lemma TickStands(ps: seq<Packet>, nodeDelta: real -> real, samples: set<real>, ticks: seq<real>,
                   shown: seq<set<nat>>, t: real, maxTime: real, next: real)
    requires InTraceOrder(ps) && NodeDeltas(nodeDelta, samples)
    requires forall i :: 0 <= i < |ps| ==> ps[i].fbTx <= maxTime && (ps[i].lbRx.Some? ==> ps[i].fbTx <= ps[i].lbRx.value)
    requires Stands(ps, nodeDelta, Events(ps, samples), ticks, shown, t, maxTime, false)
    requires next == NextTime(t, FutureDelta(ps, t), nodeDelta(t), maxTime)
    ensures Stands(ps, nodeDelta, Events(ps, samples), ticks + [t], shown + [Visible(ps, t)], next, maxTime, next > maxTime)
    ensures next <= maxTime ==> |Later(Events(ps, samples), next)| < |Later(Events(ps, samples), t)|
  {
    var events, ticks', shown' := Events(ps, samples), ticks + [t], shown + [Visible(ps, t)];
    SeenAtStart(ps, t);
    JumpLandsOnEvent(ps, t, nodeDelta, samples);
    RecordGrows(ps, events, ticks, shown, t);
    assert ticks'[|ticks|] == t && ticks'[..|ticks|] == ticks;
    hide IsRecord, Visible, FutureDelta, Events, Later;
    if nodeDelta(t) == 0.0 && ComesLater(ps, t) {
      assert !NothingSkipped(ps, nodeDelta, ticks');
    } else {
      assert NothingSkipped(ps, nodeDelta, ticks');
      CoverGrows(ps, ticks, shown, t, Visible(ps, t), if next > maxTime then maxTime + 0.001 else next);
      if next <= maxTime {
        FewerLater(events, t, next);
      }
    }
  }

  /**
    A whole fast-forward run from time 0.  It ends; its ticks strictly increase, with at most one more than there are
    distinct event times; and every packet is on display at the tick of its own start exactly if the node delta is not 0
    at any tick with a start still to come.  Otherwise some packet is never on display.  If the node delta is never 0,
    nothing is skipped; if it always is, nothing is skipped exactly if all packets start at 0.
  */
  method FastForwardRun(mode: AnimatorMode, nodeDelta: real -> real, ghost samples: set<real>)
    returns (ticks: seq<real>, shown: seq<set<nat>>)
    requires mode.scene.Valid() && mode.fastFwd && mode.playing && !mode.simulationCompleted && mode.currentTime == 0.0
    requires mode.scene.packets != [] && InTraceOrder(mode.scene.packets)
    requires forall p :: p in mode.scene.packets ==>
               && 0.0 <= p.fbTx <= mode.parsedMaxSimulationTime
               && (p.lbRx.Some? ==> p.fbTx <= p.lbRx.value)
    requires NodeDeltas(nodeDelta, samples)
    modifies mode, mode.scene
    ensures mode.simulationCompleted && mode.scene.packets == old(mode.scene.packets)
    ensures 0 < |ticks| == |shown| <= |Events(mode.scene.packets, samples)| + 1
    ensures IsRecord(mode.scene.packets, Events(mode.scene.packets, samples), ticks, shown)
    ensures NothingSkipped(mode.scene.packets, nodeDelta, ticks)
       <==> forall i: nat :: i < |mode.scene.packets| ==> ShownAtStart(mode.scene.packets, ticks, shown, i)
    ensures NothingSkipped(mode.scene.packets, nodeDelta, ticks)
       <==> !exists i: nat :: i < |mode.scene.packets| && NeverShown(shown, i)
    ensures (forall t :: nodeDelta(t) != 0.0) ==> NothingSkipped(mode.scene.packets, nodeDelta, ticks)
    ensures (forall t :: nodeDelta(t) == 0.0) ==>
              (NothingSkipped(mode.scene.packets, nodeDelta, ticks) <==> forall p :: p in mode.scene.packets ==> p.fbTx == 0.0)
  {
    ghost var ps, events := mode.scene.packets, Events(mode.scene.packets, samples);
    ghost var maxTime := mode.parsedMaxSimulationTime;
    assert ps[0] in ps;
    assert forall i :: 0 <= i < |ps| ==> ps[i] in ps;
    ticks, shown := [], [];
    hide Stands, Later, NothingSkipped, NeverShown, ShownAtStart, IsRecord;
    assert Stands(ps, nodeDelta, events, ticks, shown, 0.0, maxTime, false) by {
      NothingYet(ps, nodeDelta, events, maxTime);
    }
    while !mode.simulationCompleted
      invariant mode.scene.Valid() && mode.scene.packets == ps && mode.fastFwd && mode.parsedMaxSimulationTime == maxTime
      invariant !mode.simulationCompleted ==> mode.playing
      invariant Stands(ps, nodeDelta, events, ticks, shown, mode.currentTime, maxTime, mode.simulationCompleted)
      decreases !mode.simulationCompleted, |Later(events, mode.currentTime)|
    {
      var t := mode.currentTime;
      ghost var next := NextTime(t, FutureDelta(ps, t), nodeDelta(t), maxTime);
      TickStands(ps, nodeDelta, samples, ticks, shown, t, maxTime, next);
      var now := mode.UpdateRateTimeoutSlot(nodeDelta(t));
      ticks, shown := ticks + [t], shown + [now];
      assert mode.simulationCompleted ==> Stands(ps, nodeDelta, events, ticks, shown, mode.currentTime, maxTime, true) by {
        Over(ps, nodeDelta, events, ticks, shown, next, mode.currentTime, maxTime);
      }
    }
    RunJudged(ps, nodeDelta, events, ticks, shown, mode.currentTime, maxTime);
    JudgedAhead(ps, nodeDelta, events, ticks, shown);
  }

  /** What can be said before the run. */
  lemma JudgedAhead(ps: seq<Packet>, nodeDelta: real -> real, events: set<real>, ticks: seq<real>, shown: seq<set<nat>>)
    requires IsRecord(ps, events, ticks, shown) && ticks != [] && forall p :: p in ps ==> p.fbTx >= 0.0
    ensures (forall t :: nodeDelta(t) != 0.0) ==> NothingSkipped(ps, nodeDelta, ticks)
    ensures (forall t :: nodeDelta(t) == 0.0) ==>
              (NothingSkipped(ps, nodeDelta, ticks) <==> forall p :: p in ps ==> p.fbTx == 0.0)
  {
    if forall t :: nodeDelta(t) == 0.0 {
      assert ticks[0] == 0.0;
      if NothingSkipped(ps, nodeDelta, ticks) {
        assert !ComesLater(ps, 0.0);
        forall p | p in ps
          ensures p.fbTx == 0.0
        {
          var i :| 0 <= i < |ps| && ps[i] == p;
        }
      } else {
        var k :| 0 <= k < |ticks| && ComesLater(ps, ticks[k]);
        assert ticks[k] >= ticks[0];
        var i :| 0 <= i < |ps| && ps[i].fbTx > ticks[k];
        assert ps[i] in ps;
      }
    }
  }

  lemma NothingYet(ps: seq<Packet>, nodeDelta: real -> real, events: set<real>, maxTime: real)
    requires 0.0 <= maxTime && forall i :: 0 <= i < |ps| ==> ps[i].fbTx >= 0.0
    ensures Stands(ps, nodeDelta, events, [], [], 0.0, maxTime, false)
  {
  }

  /** At the end the time is of no matter. */
  lemma Over(ps: seq<Packet>,
             nodeDelta: real -> real, events: set<real>, ticks: seq<real>, shown: seq<set<nat>>, t: real,
             u: real, maxTime: real)
    ensures Stands(ps, nodeDelta, events, ticks, shown, t, maxTime, true)
         == Stands(ps, nodeDelta, events, ticks, shown, u, maxTime, true)
  {
  }

  lemma RunJudged(ps: seq<Packet>, nodeDelta: real -> real, events: set<real>, ticks: seq<real>, shown: seq<set<nat>>,
                  t: real, maxTime: real)
    requires Stands(ps, nodeDelta, events, ticks, shown, t, maxTime, true)
    requires forall i :: 0 <= i < |ps| ==> ps[i].fbTx <= maxTime
    ensures IsRecord(ps, events, ticks, shown) && 0 < |ticks| <= |events| + 1
    ensures NothingSkipped(ps, nodeDelta, ticks) <==> forall i: nat :: i < |ps| ==> ShownAtStart(ps, ticks, shown, i)
    ensures NothingSkipped(ps, nodeDelta, ticks) <==> !exists i: nat :: i < |ps| && NeverShown(shown, i)
  {
    IncreasingCount(ticks, events + {0.0});
    if NothingSkipped(ps, nodeDelta, ticks) {
      forall i: nat | i < |ps|
        ensures !NeverShown(shown, i)
      {
        assert ShownAtStart(ps, ticks, shown, i);
      }
    } else {
      var i := LaterNeverShown(ps, events, ticks, shown);
    }
  }

  /** In a scene without nodes the node delta is 0 throughout: a packet that starts at 1 is not shown. */
  method PacketNeverShown() returns (ticks: seq<real>, shown: seq<set<nat>>)
    ensures ticks != [] && |shown| == |ticks| && NeverShown(shown, 0)
  {
    var scene := new AnimatorScene();
    scene.AddPacketRx(Transmission(0, 1, 1.0, 1.0, 1.0, true));
    assert scene.packets == [Packet(1.0, None)];
    var mode := new AnimatorMode(scene, 2.0, 0.1);
    mode.playing := true;
    hide NothingSkipped, NeverShown, IsRecord, ShownAtStart, InTraceOrder, Events;
    ghost var events := Events(scene.packets, {});
    assert InTraceOrder(scene.packets) by {
      OneInOrder(scene.packets);
    }
    ticks, shown := FastForwardRun(mode, _ => 0.0, {});
    FirstTickSkips(scene.packets, events, ticks, shown);
  }

  lemma OneInOrder(ps: seq<Packet>)
    requires |ps| == 1
    ensures InTraceOrder(ps)
  {
  }

  lemma FirstTickSkips(ps: seq<Packet>, events: set<real>, ticks: seq<real>, shown: seq<set<nat>>)
    requires |ps| == 1 && ps[0].fbTx > 0.0 && IsRecord(ps, events, ticks, shown) && ticks != []
    requires NothingSkipped(ps, _ => 0.0, ticks) <==> !exists i: nat :: i < |ps| && NeverShown(shown, i)
    ensures NeverShown(shown, 0)
  {
    assert ticks[0] == 0.0 && ComesLater(ps, ticks[0]);
    assert !NothingSkipped(ps, _ => 0.0, ticks);
  }
}
