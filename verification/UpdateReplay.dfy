/**
  NetAnim's link and node updates (netanim-3.101/animator/linkupdatemanager.cpp and nodeupdatemanager.cpp).  The two
  managers run the same algorithm over different payloads: a list of timed updates in arrival order, and a stored
  iterator that saves replaying the list from its beginning at every tick.
*/
module UpdateReplay {

  /** At a time, an object takes on a new look (a link description; a node's colour, description and visibility). */
  datatype Update<O, V> = Update(time: real, target: O, look: V)

  /** The first update at or after place i that is later than t: where the replay stops. */
  function StopFrom<O, V>(us: seq<Update<O, V>>, t: real, i: nat): (n: nat)
    requires i <= |us|
    ensures i <= n <= |us|
    ensures forall j :: i <= j < n ==> us[j].time <= t
    ensures n < |us| ==> us[n].time > t
    decreases |us| - i
  {
    if i == |us| || us[i].time > t then i else StopFrom(us, t, i + 1)
  }

  function Stop<O, V>(us: seq<Update<O, V>>, t: real): (n: nat)
    ensures n <= |us|
  {
    StopFrom(us, t, 0)
  }

  /** The plain meaning of the list: apply all of it, in order. */
  function Replay<O, V>(us: seq<Update<O, V>>, looks: map<O, V>): map<O, V> {
    if us == [] then looks
    else Replay(us[..|us| - 1], looks)[us[|us| - 1].target := us[|us| - 1].look]
  }

  function Targets<O, V>(us: seq<Update<O, V>>): set<O> {
    set i | 0 <= i < |us| :: us[i].target
  }

  lemma {:induction false} ReplayAppend<O, V>(a: seq<Update<O, V>>, b: seq<Update<O, V>>, looks: map<O, V>)
    ensures Replay(a + b, looks) == Replay(b, Replay(a, looks))
  {
    if b == [] {
      assert a + b == a;
    } else {
      ReplayAppend(a, b[..|b| - 1], looks);
      assert (a + b)[..|a + b| - 1] == a + b[..|b| - 1];
    }
  }

  /** An update overwrites its target only, whatever was there before. */
  lemma {:induction false} ReplayLooks<O, V>(us: seq<Update<O, V>>, looks: map<O, V>, other: map<O, V>)
    ensures Replay(us, looks).Keys == looks.Keys + Targets(us)
    ensures Replay(us, other).Keys == other.Keys + Targets(us)
    ensures forall o :: o in Targets(us) ==> Replay(us, looks)[o] == Replay(us, other)[o]
    ensures forall o :: o in looks && o !in Targets(us) ==> Replay(us, looks)[o] == looks[o]
  {
    if us != [] {
      var front := us[..|us| - 1];
      ReplayLooks(front, looks, other);
      ReplayLooks(front, other, other);
      assert us == front + [us[|us| - 1]];
      assert Targets(us) == Targets(front) + {us[|us| - 1].target};
    } else {
      assert Targets(us) == {};
    }
  }

  /** Of several updates of an object the last one wins; an object without any keeps its look. */
  lemma {:induction false} LastOneWins<O, V>(us: seq<Update<O, V>>, looks: map<O, V>, i: nat)
    requires i < |us| && forall j :: i < j < |us| ==> us[j].target != us[i].target
    ensures us[i].target in Replay(us, looks) && Replay(us, looks)[us[i].target] == us[i].look
  {
    if i < |us| - 1 {
      LastOneWins(us[..|us| - 1], looks, i);
    }
  }

  /** Once a list is on display, applying it again changes nothing. */
  lemma {:induction false} ReplaySettled<O, V>(us: seq<Update<O, V>>, looks: map<O, V>)
    ensures Replay(us, Replay(us, looks)) == Replay(us, looks)
  {
    var once := Replay(us, looks);
    ReplayLooks(us, looks, once);
    ReplayLooks(us, once, looks);
  }

  /** Nor does applying any end of it again: this is why the iterator may step back. */
  lemma {:induction false} EndSettled<O, V>(a: seq<Update<O, V>>, b: seq<Update<O, V>>, looks: map<O, V>)
    requires Replay(a + b, looks) == looks
    ensures Replay(b, looks) == looks
  {
    ReplayAppend(a, b, looks);
    ReplayLooks(b, looks, Replay(a, looks));
  }

  /** A replay may start at any place c whose preceding updates, and some more up to m, are on display. */
  lemma {:induction false} ReplayFrom<O, V>(us: seq<Update<O, V>>, c: nat, m: nat, n: nat, looks: map<O, V>)
    requires c <= m <= n <= |us|
    requires Replay(us[..m], looks) == looks
    ensures Replay(us[c..n], looks) == Replay(us[..n], looks)
  {
    assert us[..m] == us[..c] + us[c..m];
    assert us[..n] == us[..m] + us[m..n];
    assert us[c..n] == us[c..m] + us[m..n];
    EndSettled(us[..c], us[c..m], looks);
    ReplayAppend(us[..m], us[m..n], looks);
    ReplayAppend(us[c..m], us[m..n], looks);
  }

  lemma StopGrows<O, V>(us: seq<Update<O, V>>, t: real, u: real)
    requires t <= u
    ensures Stop(us, t) <= Stop(us, u)
  {
  }

  ghost predicate Settled<O, V>(us: seq<Update<O, V>>, looks: map<O, V>) {
    Replay(us, looks) == looks
  }

  ghost predicate OnDisplay<O, V>(us: seq<Update<O, V>>, c: nat, last: real, looks: map<O, V>) {
    c <= Stop(us, last) && Settled(us[..Stop(us, last)], looks)
  }

  /** Resuming a replay at the stored iterator has the effect of starting over. */
  lemma {:induction false} Resume<O, V>(us: seq<Update<O, V>>, c: nat, last: real, t: real, looks: map<O, V>)
    requires c > 0 ==> OnDisplay(us, c, last, looks) && last <= t
    ensures c <= Stop(us, t) && Replay(us[c..c], looks) == looks
    ensures Replay(us[c..Stop(us, t)], looks) == Replay(us[..Stop(us, t)], looks)
    ensures var now := Replay(us[..Stop(us, t)], looks); OnDisplay(us, c, t, now)
  {
    var n := Stop(us, t);
    if c > 0 {
      StopGrows(us, last, t);
      ReplayFrom(us, c, Stop(us, last), n, looks);
    }
    ReplaySettled(us[..n], looks);
  }

  lemma {:induction false} ReplayStep<O, V>(us: seq<Update<O, V>>, c: nat, i: nat, looks: map<O, V>)
    requires c <= i < |us|
    ensures Replay(us[c..i + 1], looks) == Replay(us[c..i], looks)[us[i].target := us[i].look]
  {
    assert us[c..i + 1][..i - c] == us[c..i];
  }

  /** The display after a sequence of seeks, each of which is UpdateTo. */
  function AfterSeeks<O, V>(us: seq<Update<O, V>>, looks: map<O, V>, seeks: seq<real>): map<O, V> {
    if seeks == [] then looks
    else Replay(us[..Stop(us, seeks[|seeks| - 1])], AfterSeeks(us, looks, seeks[..|seeks| - 1]))
  }

  ghost predicate FromZero(seeks: seq<real>) {
    forall k :: 0 <= k < |seeks| ==> seeks[k] >= 0.0
  }

  /** A replay that sets every object the display has ever shown forgets what was there. */
  lemma {:induction false} ReplayForgets<O, V>(us: seq<Update<O, V>>, looks: map<O, V>, other: map<O, V>)
    requires looks.Keys + Targets(us) == other.Keys + Targets(us)
    requires forall o :: o in looks && o in other && o !in Targets(us) ==> looks[o] == other[o]
    ensures Replay(us, looks) == Replay(us, other)
  {
    ReplayLooks(us, looks, other);
    ReplayLooks(us, other, looks);
  }

  /** When each object has an update before the first one later than 0, only the last seek matters. */
  lemma {:induction false} OnlyLastSeekMatters<O, V>(us: seq<Update<O, V>>, looks: map<O, V>, seeks: seq<real>)
    requires Targets(us) == Targets(us[..Stop(us, 0.0)])
    requires seeks != [] && FromZero(seeks)
    ensures AfterSeeks(us, looks, seeks) == Replay(us[..Stop(us, seeks[|seeks| - 1])], looks)
  {
    var front, n := seeks[..|seeks| - 1], Stop(us, seeks[|seeks| - 1]);
    if front != [] {
      OnlyLastSeekMatters(us, looks, front);
      var m := Stop(us, front[|front| - 1]);
      TargetsFrom0(us, front[|front| - 1]);
      TargetsFrom0(us, seeks[|seeks| - 1]);
      ReplayLooks(us[..m], looks, looks);
      ReplayForgets(us[..n], AfterSeeks(us, looks, front), looks);
    }
  }

  lemma TargetsFrom0<O, V>(us: seq<Update<O, V>>, t: real)
    requires Targets(us) == Targets(us[..Stop(us, 0.0)]) && t >= 0.0
    ensures Targets(us[..Stop(us, t)]) == Targets(us)
  {
    StopGrows(us, 0.0, t);
    var a, b := us[..Stop(us, 0.0)], us[..Stop(us, t)];
    forall o | o in Targets(a)
      ensures o in Targets(b)
    {
      var i :| 0 <= i < |a| && a[i].target == o;
      assert b[i].target == o;
    }
    forall o | o in Targets(b)
      ensures o in Targets(us)
    {
      var i :| 0 <= i < |b| && b[i].target == o;
      assert us[i].target == o;
    }
  }

  function Latest<O, V>(us: seq<Update<O, V>>): (t: real)
    ensures t >= 0.0 && forall u :: u in us ==> u.time <= t
  {
    if us == [] then 0.0
    else
      var rest := Latest(us[1..]);
      if us[0].time > rest then us[0].time else rest
  }

  /**
    The condition is exact: from an empty display, every sequence of seeks to times from 0 up shows the plain replay
    if and only if each object has an update before the first one later than 0.
  */
  lemma {:induction false} CursorIsReplayIff<O, V>(us: seq<Update<O, V>>)
    ensures Targets(us) == Targets(us[..Stop(us, 0.0)])
       <==> forall seeks :: seeks != [] && FromZero(seeks) ==>
              AfterSeeks(us, map[], seeks) == Replay(us[..Stop(us, seeks[|seeks| - 1])], map[])
  {
    if Targets(us) == Targets(us[..Stop(us, 0.0)]) {
      forall seeks | seeks != [] && FromZero(seeks)
        ensures AfterSeeks(us, map[], seeks) == Replay(us[..Stop(us, seeks[|seeks| - 1])], map[])
      {
        OnlyLastSeekMatters(us, map[], seeks);
      }
    } else {
      StaleAfterSeekBack(us);
      var seeks := [Latest(us), 0.0];
      assert seeks != [] && FromZero(seeks);
    }
  }

  /** Otherwise, playing to the end and seeking back to 0 leaves an object that should not be there. */
  lemma {:induction false} StaleAfterSeekBack<O, V>(us: seq<Update<O, V>>)
    requires Targets(us) != Targets(us[..Stop(us, 0.0)])
    ensures AfterSeeks(us, map[], [Latest(us), 0.0]) != Replay(us[..Stop(us, 0.0)], map[])
  {
    var t, none: map<O, V> := Latest(us), map[];
    AllByLatest(us);
    hide Stop, StopFrom, Latest, Targets;
    assert [t, 0.0][..1] == [t] && [t][..0] == [];
    assert AfterSeeks(us, none, [t]) == Replay(us, none);
    var front := us[..Stop(us, 0.0)];
    ReplayLooks(us, none, none);
    ReplayLooks(front, none, Replay(us, none));
    assert Targets(front) <= Targets(us) by {
      FewerTargets(us, Stop(us, 0.0));
    }
  }

  lemma {:induction false} AllByLatest<O, V>(us: seq<Update<O, V>>)
    ensures us[..Stop(us, Latest(us))] == us
  {
  }

  lemma FewerTargets<O, V>(us: seq<Update<O, V>>, n: nat)
    requires n <= |us|
    ensures Targets(us[..n]) <= Targets(us)
  {
    forall o | o in Targets(us[..n])
      ensures o in Targets(us)
    {
      var i :| 0 <= i < n && us[..n][i].target == o;
      assert us[i].target == o;
    }
  }

  lemma AtStop<O, V>(us: seq<Update<O, V>>, t: real, i: nat)
    requires i <= Stop(us, t)
    ensures i == Stop(us, t) <==> i == |us| || us[i].time > t
  {
  }

  lemma StepBack<O, V>(us: seq<Update<O, V>>, c: nat, position: nat, t: real, now: map<O, V>)
    requires OnDisplay(us, c, t, now) && position <= Stop(us, t)
    ensures OnDisplay(us, position, t, now)
  {
  }

  class UpdateManager<O(==), V> {
    var updates: seq<Update<O, V>>
    var position: nat
    var lastTime: real
    var looks: map<O, V>   // what the objects show

    /** Everything the iterator has passed is on display, up to the last tick. */
    ghost predicate Valid()
      reads this
    {
      position <= |updates| && (position > 0 ==> OnDisplay(updates, position, lastTime, looks))
    }

    constructor ()
      ensures Valid() && updates == [] && looks == map[]
    {
      updates, position, lastTime, looks := [], 0, 0.0, map[];
    }

    method AddUpdate(u: Update<O, V>)
      requires Valid()
      modifies `updates, `position, `lastTime
      ensures Valid() && updates == old(updates) + [u] && lastTime == 0.0
    {
      updates := updates + [u];
      position := 0;
      lastTime := 0.0;
    }

    /**
      A seek to time t, forward or backward.  The display becomes what replaying the list from its start, up to the
      first update later than t, makes of the old display.
    */
    method UpdateTo(t: real) returns (updated: bool)
      requires Valid()
      modifies `position, `lastTime, `looks
      ensures Valid()
      ensures looks == Replay(updates[..Stop(updates, t)], old(looks))
      ensures updates != [] ==> lastTime == t
      ensures updated <==>
                && updates != []
                && (t < old(lastTime) || (old(position) < |updates| && updates[old(position)].time <= t))
    {
      updated := false;
      if updates == [] {
        return;
      }
      hide *;
      if t < lastTime {
        position := 0;
        updated := true;
      }
      ghost var c, n := position, Stop(updates, t);
      assert c <= n <= |updates| && Replay(updates[c..c], looks) == looks
          && Replay(updates[c..n], looks) == Replay(updates[..n], looks)
          && OnDisplay(updates, c, t, Replay(updates[..n], looks)) by {
        Resume(updates, c, lastTime, t, looks);
      }
      lastTime := t;
      var moved := Apply(t, n);
      updated := updated || moved;
      StepBack(updates, c, position, t, looks);
    }

    /** The loop: applies updates from the iterator on, up to the first one later than t, and steps back before it. */
    method Apply(t: real, ghost n: nat) returns (moved: bool)
      requires position <= n == Stop(updates, t)
      requires Replay(updates[position..position], looks) == looks
      modifies `position, `looks
      ensures position <= n && looks == Replay(updates[old(position)..n], old(looks))
      ensures moved <==> old(position) < n
    {
      moved := false;
      hide Replay, Stop;
      ghost var us, before, c := updates, looks, position;
      while position < |updates|
        invariant c <= position <= n
        invariant looks == Replay(us[c..position], before)
        invariant moved <==> position > c
        decreases |updates| - position
      {
        AtStop(us, t, position);
        var u := updates[position];
        if u.time > t {
          if position != 0 {
            position := position - 1;
          }
          break;
        }
        ReplayStep(us, c, position, before);
        looks := looks[u.target := u.look];
        moved := true;
        position := position + 1;
      }
    }
  }

  /** A run of seeks on the real manager. */
  method Drive<O(==), V>(manager: UpdateManager<O, V>, seeks: seq<real>)
    requires manager.Valid()
    modifies manager
    ensures manager.Valid() && manager.updates == old(manager.updates)
    ensures manager.looks == AfterSeeks(manager.updates, old(manager.looks), seeks)
  {
    for k := 0 to |seeks|
      invariant manager.Valid() && manager.updates == old(manager.updates)
      invariant manager.looks == AfterSeeks(manager.updates, old(manager.looks), seeks[..k])
    {
      assert seeks[..k + 1][..k] == seeks[..k];
      var _ := manager.UpdateTo(seeks[k]);
    }
    assert seeks[..|seeks|] == seeks;
  }
}
