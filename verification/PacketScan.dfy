/**
  NetAnim's packet playback (netanim-3.101/animator/animatorscene.cpp).

  A trace is a sequence of packets in the order they were read; a packet's identifier is its place in that
  sequence.  At each tick the scene moves a stored cursor forward, adds what is on air, and purges what is over,
  instead of looking at every packet.  Time is a real number.
*/
module PacketScan {
  import opened Wrappers

  /** A packet from its first transmitted bit to its last received one; a wireless packet has no end. */
  datatype Packet = Packet(fbTx: real, lbRx: Option<real>)

  datatype Window = Inside | Past | Future

  /** A transmission as it is read from the trace. */
  datatype Transmission = Transmission(fromId: nat, toId: nat, fbTx: real, lbTx: real, lbRx: real, isWireless: bool)

  /** The stored form of a packet: a very short transmission is treated as wireless. */
  function NewPacket(x: Transmission): Packet {
    if x.lbTx - x.fbTx < 0.00001 || x.isWireless then Packet(x.fbTx, None) else Packet(x.fbTx, Some(x.lbRx))
  }

  /** A node's transmission to itself is not stored. */
  function Stored(ps: seq<Packet>, x: Transmission): seq<Packet> {
    if x.fromId == x.toId then ps else ps + [NewPacket(x)]
  }

  /** A transmission as a viewer should see it: not at all if it is to its own sender, else from first bit to last. */
  ghost predicate Shows(x: Transmission, t: real) {
    && x.fromId != x.toId
    && if x.isWireless || x.lbTx - x.fbTx < 0.00001 then t == x.fbTx else x.fbTx <= t <= x.lbRx
  }

  /** Where time t lies for a packet.  The end is tested before the start. */
  function Classify(p: Packet, t: real): Window {
    if p.lbRx.Some? && t > p.lbRx.value then Past
    else if t < p.fbTx then Future
    else Inside
  }

  /** What a viewer should see: a wired packet for its whole flight, a wireless one at the instant it starts. */
  predicate OnAir(p: Packet, t: real) {
    match p.lbRx
    case None => t == p.fbTx
    case Some(end) => p.fbTx <= t <= end
  }

  /** What the purge drops. */
  predicate Expired(p: Packet, t: real) {
    match p.lbRx
    case None => t > p.fbTx
    case Some(end) => end < t
  }

  /** What is stored for a transmission is on air when the transmission is. */
  lemma StoredIsOnAir(ps: seq<Packet>, x: Transmission, t: real)
    ensures x.fromId == x.toId ==> Stored(ps, x) == ps
    ensures x.fromId != x.toId ==>
              && |Stored(ps, x)| == |ps| + 1 && Stored(ps, x)[..|ps|] == ps
              && (OnAir(Stored(ps, x)[|ps|], t) <==>
                    if x.isWireless || x.lbTx - x.fbTx < 0.00001 then t == x.fbTx else x.fbTx <= t <= x.lbRx)
              && (Classify(Stored(ps, x)[|ps|], t) == Future <==> !HasBegun(x, t))
  {
  }

  /** Where the scan does not stop: at a transmission that has started, or one that ended before it started. */
  ghost predicate HasBegun(x: Transmission, t: real) {
    x.fbTx <= t || (!x.isWireless && x.lbTx - x.fbTx >= 0.00001 && x.lbRx < t)
  }

  /** The first packet at or after place i that has not started at time t; the number of packets if there is none. */
  function FirstFutureFrom(ps: seq<Packet>, t: real, i: nat): (n: nat)
    requires i <= |ps|
    ensures i <= n <= |ps|
    ensures forall j :: i <= j < n ==> Classify(ps[j], t) != Future
    ensures n < |ps| ==> Classify(ps[n], t) == Future
    decreases |ps| - i
  {
    if i == |ps| || Classify(ps[i], t) == Future then i else FirstFutureFrom(ps, t, i + 1)
  }

  function FirstFuture(ps: seq<Packet>, t: real): (n: nat)
    ensures n <= |ps|
  {
    FirstFutureFrom(ps, t, 0)
  }

  /** The packets on air at time t, up to the first one that has not started. */
  function Visible(ps: seq<Packet>, t: real): set<nat> {
    set i: nat | i < FirstFuture(ps, t) && OnAir(ps[i], t)
  }

  /** All the packets on air at time t. */
  function PlainFilter(ps: seq<Packet>, t: real): set<nat> {
    set i: nat | i < |ps| && OnAir(ps[i], t)
  }

  /** The distance to the start of the packet that stopped the scan; 0 when nothing is to come. */
  function FutureDelta(ps: seq<Packet>, t: real): (d: real)
    ensures d >= 0.0
  {
    var n := FirstFuture(ps, t);
    if n < |ps| then ps[n].fbTx - t else 0.0
  }

  ghost predicate InTraceOrder(ps: seq<Packet>) {
    forall i, j :: 0 <= i < j < |ps| ==> ps[i].fbTx <= ps[j].fbTx
  }

  /** The scan agrees with a filter over the whole trace exactly when nothing on air stands behind a packet to come. */
  lemma ScanIsFilterIff(ps: seq<Packet>, t: real)
    ensures Visible(ps, t) == PlainFilter(ps, t)
       <==> forall i, j :: 0 <= i < j < |ps| && OnAir(ps[j], t) ==> Classify(ps[i], t) != Future
  {
    var n := FirstFuture(ps, t);
    if Visible(ps, t) == PlainFilter(ps, t) {
      forall i, j | 0 <= i < j < |ps| && OnAir(ps[j], t)
        ensures Classify(ps[i], t) != Future
      {
        assert j in PlainFilter(ps, t);
        assert j in Visible(ps, t);
      }
    } else {
      assert Visible(ps, t) <= PlainFilter(ps, t);
      var j :| j in PlainFilter(ps, t) && j !in Visible(ps, t);
      assert n <= j && Classify(ps[n], t) == Future;
      assert n != j;
    }
  }

  /** In particular they agree at every time on a trace that lists packets by their start. */
  lemma ScanIsFilter(ps: seq<Packet>, t: real)
    requires InTraceOrder(ps)
    ensures Visible(ps, t) == PlainFilter(ps, t)
  {
    ScanIsFilterIff(ps, t);
  }

  /** And if no packet ends before it starts, on no other trace. */
  lemma AlwaysFilterIff(ps: seq<Packet>)
    requires forall p :: p in ps && p.lbRx.Some? ==> p.fbTx <= p.lbRx.value
    ensures InTraceOrder(ps) <==> forall t :: Visible(ps, t) == PlainFilter(ps, t)
  {
    if InTraceOrder(ps) {
      forall t
        ensures Visible(ps, t) == PlainFilter(ps, t)
      {
        ScanIsFilter(ps, t);
      }
    } else {
      var i, j :| 0 <= i < j < |ps| && ps[i].fbTx > ps[j].fbTx;
      ScanIsFilterIff(ps, ps[j].fbTx);
      assert ps[i] in ps && ps[j] in ps;
      assert OnAir(ps[j], ps[j].fbTx) && Classify(ps[i], ps[j].fbTx) == Future;
      assert Visible(ps, ps[j].fbTx) != PlainFilter(ps, ps[j].fbTx);
    }
  }

  /** A packet on air from 1 to 3, listed behind one that starts at 2: at 1.5 it is not shown. */
  lemma LatePacketMissed()
    ensures var ps := [Packet(2.0, Some(4.0)), Packet(1.0, Some(3.0))];
            PlainFilter(ps, 1.5) == {1} && Visible(ps, 1.5) == {}
  {
    var ps := [Packet(2.0, Some(4.0)), Packet(1.0, Some(3.0))];
    assert FirstFuture(ps, 1.5) == 0;
    assert !OnAir(ps[0], 1.5) && OnAir(ps[1], 1.5);
  }

  /** A packet that has started stays started: the first future packet only moves forward with time. */
  lemma FirstFutureGrows(ps: seq<Packet>, t: real, u: real)
    requires t <= u
    ensures FirstFuture(ps, t) <= FirstFuture(ps, u)
  {
    var n := FirstFuture(ps, u);
    if n < |ps| {
      assert Classify(ps[n], t) == Future;
    }
  }

  /** A scan may start at any place all of whose predecessors have started. */
  lemma {:induction false} ScanFromCursor(ps: seq<Packet>, t: real, i: nat)
    requires i <= |ps|
    requires forall j :: 0 <= j < i ==> Classify(ps[j], t) != Future
    ensures FirstFutureFrom(ps, t, i) == FirstFuture(ps, t)
  {
    var m, n := FirstFutureFrom(ps, t, i), FirstFuture(ps, t);
    if n < |ps| {
      assert i <= n;
    }
  }

  lemma FirstFutureAppend(ps: seq<Packet>, p: Packet, t: real)
    ensures FirstFuture(ps, t) <= FirstFuture(ps + [p], t)
  {
    var qs := ps + [p];
    var n := FirstFuture(qs, t);
    if n < |ps| {
      assert qs[n] == ps[n];
    }
  }

  /** The display holds only packets that had started by the last tick. */
  ghost predicate DisplayStarted(ps: seq<Packet>, last: real, shown: set<nat>) {
    forall i :: i in shown ==> i < FirstFuture(ps, last) && ps[i].fbTx <= last
  }

  /** What the cursor has passed had started by the last tick, and is on display if it was still on air. */
  ghost predicate CursorCovered(ps: seq<Packet>, last: real, cursor: nat, shown: set<nat>) {
    && cursor <= |ps|
    && forall i :: 0 <= i < cursor ==> Classify(ps[i], last) != Future && (OnAir(ps[i], last) ==> i in shown)
  }

  function InsideBetween(ps: seq<Packet>, t: real, lo: nat, hi: nat): set<nat>
    requires hi <= |ps|
  {
    set j: nat | lo <= j < hi && Classify(ps[j], t) == Inside
  }

  lemma InsideStep(ps: seq<Packet>, t: real, lo: nat, i: nat)
    requires lo <= i < |ps|
    ensures InsideBetween(ps, t, lo, i + 1)
         == InsideBetween(ps, t, lo, i) + if Classify(ps[i], t) == Inside then {i} else {}
  {
  }

  /** Why the cursor may skip packets still in flight: they are on display already. */
  lemma {:induction false} CatchUp(ps: seq<Packet>, last: real, t: real, cursor: nat, shown: set<nat>)
    requires DisplayStarted(ps, last, shown) && CursorCovered(ps, last, cursor, shown)
    requires last <= t || (cursor == 0 && shown == {})
    ensures FirstFutureFrom(ps, t, cursor) == FirstFuture(ps, t)
    ensures forall j :: 0 <= j < FirstFuture(ps, t) ==> Classify(ps[j], t) != Future
    ensures var now := shown + InsideBetween(ps, t, cursor, FirstFuture(ps, t));
            DisplayStarted(ps, t, now) && Visible(ps, t) <= now
  {
    ScanFromCursor(ps, t, cursor);
    if last <= t {
      FirstFutureGrows(ps, last, t);
    }
  }

  class AnimatorScene {
    var packets: seq<Packet>     // m_animPackets
    var cursor: nat              // staticIterator
    var animated: set<nat>       // m_packetsToAnimate
    var lastTime: real
    var futurePacketTimeDelta: real
    var systemResetInProgress: bool
    var softResetInProgress: bool

    /**
      What every operation keeps.  Everything on display had started by the last tick.  Unless a reset is
      pending, every packet the cursor has passed had started by then, and is on display if it was still on air.
    */
    ghost predicate Valid()
      reads this
    {
      && DisplayStarted(packets, lastTime, animated)
      && (!systemResetInProgress && !softResetInProgress ==>
            cursor < |packets| && CursorCovered(packets, lastTime, cursor, animated))
    }

    constructor ()
      ensures Valid() && packets == [] && animated == {} && lastTime == 0.0
    {
      packets, cursor, animated := [], 0, {};
      lastTime, futurePacketTimeDelta := 0.0, 0.0;
      systemResetInProgress, softResetInProgress := true, true;
    }

    method AddPacketRx(x: Transmission)
      requires Valid()
      modifies `packets
      ensures Valid()
      ensures packets == Stored(old(packets), x)
      ensures x.fromId == x.toId ==> packets == old(packets)
      ensures x.fromId != x.toId ==>
                && |packets| == |old(packets)| + 1 && packets[..|old(packets)|] == old(packets)
                && forall t :: OnAir(packets[|old(packets)|], t) <==>
                     if x.isWireless || x.lbTx - x.fbTx < 0.00001 then t == x.fbTx else x.fbTx <= t <= x.lbRx
    {
      if x.fromId == x.toId {
        return;
      }
      FirstFutureAppend(packets, NewPacket(x), lastTime);
      packets := packets + [NewPacket(x)];
    }

    method AddToPacketsToAnimate(i: nat)
      modifies `animated
      ensures animated == old(animated) + {i}
    {
      if i in animated {
        return;
      }
      animated := animated + {i};
    }

    method PurgeOldPackets(t: real, force: bool)
      requires forall i :: i in animated ==> i < |packets|
      modifies `animated
      ensures animated == set i | i in old(animated) && !force && !Expired(packets[i], t)
    {
      var purgeList: seq<nat> := [];
      var todo := animated;
      while todo != {}
        invariant todo <= animated
        invariant forall i :: i in purgeList <==> i in animated - todo && (force || Expired(packets[i], t))
      {
        var i :| i in todo;
        todo := todo - {i};
        var packet := packets[i];
        if (packet.lbRx.None? && t > packet.fbTx) || force {
          purgeList := purgeList + [i];
        } else if packet.lbRx.None? {
        } else if packet.lbRx.value < t || force {
          purgeList := purgeList + [i];
        }
      }
      var k := 0;
      while k < |purgeList|
        invariant 0 <= k <= |purgeList|
        invariant animated == set i | i in old(animated) && i !in purgeList[..k]
      {
        animated := animated - {purgeList[k]};
        k := k + 1;
      }
      assert purgeList[..k] == purgeList;
    }

    /** Adds every packet that is inside its window, from the cursor to the first one to come. */
    method PacketForwardScan(t: real)
      requires packets != [] && forall i :: i in animated ==> i < |packets|
      requires !systemResetInProgress && !softResetInProgress ==> cursor < |packets|
      modifies this
      ensures packets == old(packets) && lastTime == old(lastTime)
      ensures !systemResetInProgress && !softResetInProgress
      ensures var rewound := old(systemResetInProgress || softResetInProgress || lastTime > t);
              var start := if rewound then 0 else old(cursor);
              var n := FirstFutureFrom(packets, t, start);
              && start <= cursor <= n && cursor < |packets|
              && animated == (if lastTime > t then {} else old(animated)) + InsideBetween(packets, t, start, n)
              && futurePacketTimeDelta == if n < |packets| then packets[n].fbTx - t else 0.0
    {
      if systemResetInProgress || softResetInProgress {
        cursor := 0;
        systemResetInProgress, softResetInProgress := false, false;
      }
      if lastTime > t {
        cursor := 0;
        PurgeOldPackets(t, true);
      }
      futurePacketTimeDelta := 0.0;
      // A stored cursor is never at the end of the trace, so the source's early return is not reached.
      ghost var ps, start, before := packets, cursor, animated;
      ghost var n := FirstFutureFrom(ps, t, start);
      var i := cursor;
      while i < |packets|
        invariant start <= i <= n && start <= cursor <= i && cursor < |packets|
        invariant futurePacketTimeDelta == 0.0
        invariant animated == before + InsideBetween(ps, t, start, i)
        modifies `cursor, `animated, `futurePacketTimeDelta
        decreases |packets| - i
      {
        InsideStep(ps, t, start, i);
        var window := Classify(packets[i], t);
        if window == Inside {
          AddToPacketsToAnimate(i);
        } else if window == Past {
          cursor := i;
        } else {
          futurePacketTimeDelta := packets[i].fbTx - t;
          break;
        }
        i := i + 1;
      }
    }

    /** A tick shows exactly what is on air up to the first packet to come, whatever came before. */
    method TimeToUpdate(t: real)
      requires Valid()
      modifies this
      ensures Valid() && packets == old(packets)
      ensures animated == Visible(packets, t)
      ensures packets != [] ==> lastTime == t && futurePacketTimeDelta == FutureDelta(packets, t)
      ensures packets == [] ==> lastTime == old(lastTime) && futurePacketTimeDelta == old(futurePacketTimeDelta)
    {
      if packets == [] {
        return;
      }
      ghost var start := if systemResetInProgress || softResetInProgress || lastTime > t then 0 else cursor;
      CatchUp(packets, lastTime, t, start, if lastTime > t then {} else animated);
      PacketForwardScan(t);
      PurgeOldPackets(t, false);
      lastTime := t;
    }

    method SoftReset()
      requires Valid()
      modifies this
      ensures Valid() && packets == old(packets) && lastTime == old(lastTime)
      ensures animated == {} && softResetInProgress && futurePacketTimeDelta == 0.0
    {
      softResetInProgress := true;
      PurgeOldPackets(10000.0, true);
      futurePacketTimeDelta := 0.0;
    }

    method SystemReset()
      requires Valid()
      modifies this
      ensures Valid() && packets == [] && animated == {} && lastTime == 0.0 && futurePacketTimeDelta == 0.0
    {
      systemResetInProgress := true;
      PurgeOldPackets(0.0, true);
      packets := [];
      lastTime := 0.0;
      futurePacketTimeDelta := 0.0;
    }
  }

  /** What can happen to a scene. */
  datatype Event = Tick(t: real) | Arrive(x: Transmission) | Soft | System

  /** The packets known after a sequence of events. */
  function Known(ps: seq<Packet>, events: seq<Event>): seq<Packet> {
    if events == [] then ps
    else
      var before := Known(ps, events[..|events| - 1]);
      match events[|events| - 1]
      case Tick(_) => before
      case Arrive(x) => Stored(before, x)
      case Soft => before
      case System => []
  }

  /** The transmissions that have arrived since the last system reset, without those of a node to itself. */
  ghost function Arrived(events: seq<Event>): seq<Transmission> {
    if events == [] then []
    else
      var before := Arrived(events[..|events| - 1]);
      match events[|events| - 1]
      case Tick(_) => before
      case Arrive(x) => if x.fromId == x.toId then before else before + [x]
      case Soft => before
      case System => []
  }

  /** The places of the transmissions that show at time t, up to the first one that has not begun. */
  ghost function Showing(xs: seq<Transmission>, t: real): set<nat> {
    set i: nat | i < |xs| && Shows(xs[i], t) && forall j :: 0 <= j < i ==> HasBegun(xs[j], t)
  }

  lemma {:induction false} KnownArrived(events: seq<Event>, t: real)
    ensures var ps, xs := Known([], events), Arrived(events);
            && |ps| == |xs|
            && forall i :: 0 <= i < |xs| ==>
                 && (OnAir(ps[i], t) <==> Shows(xs[i], t))
                 && (Classify(ps[i], t) == Future <==> !HasBegun(xs[i], t))
  {
    if events != [] {
      var front, last := events[..|events| - 1], events[|events| - 1];
      KnownArrived(front, t);
      if last.Arrive? {
        StoredIsOnAir(Known([], front), last.x, t);
      }
    }
  }

  /** What is visible among the stored packets is what shows among the transmissions that arrived. */
  lemma {:induction false} VisibleIsShowing(events: seq<Event>, t: real)
    ensures Visible(Known([], events), t) == Showing(Arrived(events), t)
  {
    var ps, xs := Known([], events), Arrived(events);
    KnownArrived(events, t);
    forall i: nat
      ensures i in Visible(ps, t) <==> i in Showing(xs, t)
    {
      if i in Showing(xs, t) {
        var n := FirstFuture(ps, t);
        assert n < |ps| ==> !HasBegun(xs[n], t);
      }
    }
  }

  /** If the transmissions arrive in the order in which they start, all that show at time t are on display. */
  lemma InOrderAllShow(xs: seq<Transmission>, t: real)
    requires forall i, j :: 0 <= i < j < |xs| ==> xs[i].fbTx <= xs[j].fbTx
    ensures Showing(xs, t) == set i: nat | i < |xs| && Shows(xs[i], t)
  {
  }

  /**
    Over any run of ticks (forward or backward), arrivals and resets: after each tick the display is a function
    of the known packets and of that tick's time alone.
  */
  method Drive(scene: AnimatorScene, events: seq<Event>) returns (shown: seq<set<nat>>)
    requires scene.Valid()
    modifies scene
    ensures scene.Valid() && scene.packets == Known(old(scene.packets), events)
    ensures |shown| == |events|
    ensures forall k :: 0 <= k < |events| && events[k].Tick? ==>
              shown[k] == Visible(Known(old(scene.packets), events[..k]), events[k].t)
    ensures old(scene.packets) == [] ==>
              forall k :: 0 <= k < |events| && events[k].Tick? ==> shown[k] == Showing(Arrived(events[..k]), events[k].t)
  {
    shown := [];
    for k := 0 to |events|
      invariant scene.Valid() && scene.packets == Known(old(scene.packets), events[..k])
      invariant |shown| == k
      invariant forall m :: 0 <= m < k && events[m].Tick? ==>
                  shown[m] == Visible(Known(old(scene.packets), events[..m]), events[m].t)
    {
      assert events[..k + 1][..k] == events[..k];
      match events[k] {
        case Tick(t) => scene.TimeToUpdate(t);
        case Arrive(x) => scene.AddPacketRx(x);
        case Soft => scene.SoftReset();
        case System => scene.SystemReset();
      }
      shown := shown + [scene.animated];
    }
    assert events[..|events|] == events;
    if old(scene.packets) == [] {
      forall k | 0 <= k < |events| && events[k].Tick?
        ensures shown[k] == Showing(Arrived(events[..k]), events[k].t)
      {
        VisibleIsShowing(events[..k], events[k].t);
      }
    }
  }
}
