/**
  The attribute-path gatherer (ns-3.15/utils/print-introspected-doxygen.cc): every way to reach a type from a root
  object through attributes, derived types and aggregated objects.  Types may refer to each other in cycles.
*/
module TypePaths {

  type TypeId = nat

  /** What an attribute's checker says it holds. */
  datatype Checker = PointerTo(pointee: TypeId) | ContainerOf(item: TypeId) | Plain

  datatype Attribute = Attribute(name: string, checker: Checker)

  /**
    The registered types are 0, 1, ...; a name is a type's name as it appears in a path.  The pairs in childOf are
    (a type, one of its ancestors).
  */
  datatype Registry = Registry(
    objectType: TypeId,
    attributes: seq<seq<Attribute>>,
    names: seq<string>,
    childOf: set<(TypeId, TypeId)>,
    aggregates: seq<(TypeId, TypeId)>)
  {
    ghost predicate AttributesInRange() {
      forall t, i :: 0 <= t < |attributes| && 0 <= i < |attributes[t]| ==>
        match attributes[t][i].checker
        case PointerTo(p) => p < |attributes|
        case ContainerOf(p) => p < |attributes|
        case Plain => true
    }

    ghost predicate AggregatesInRange() {
      forall k :: 0 <= k < |aggregates| ==> aggregates[k].0 < |names| && aggregates[k].1 < |names|
    }

    ghost predicate WellFormed() {
      |names| == |attributes| && AttributesInRange() && AggregatesInRange()
    }
  }

  /** One step of a path. */
  datatype Edge = Edge(step: string, target: TypeId)

  function AttributeEdges(r: Registry, attributes: seq<Attribute>): seq<Edge> {
    if attributes == [] then []
    else
      var last := attributes[|attributes| - 1];
      AttributeEdges(r, attributes[..|attributes| - 1]) +
      match last.checker
      case PointerTo(p) => if p == r.objectType then [] else [Edge(last.name, p)]
      case ContainerOf(p) => [Edge(last.name + "/[i]", p)]
      case Plain => []
  }

  /** The step to a derived type, if n is one. */
  function ChildEdge(r: Registry, t: TypeId, n: nat): seq<Edge>
    requires n < |r.names|
  {
    if (n, t) in r.childOf then [Edge("$" + r.names[n], n)] else []
  }

  function ChildEdges(r: Registry, t: TypeId, n: nat): seq<Edge>
    requires n <= |r.names|
  {
    if n == 0 then [] else ChildEdges(r, t, n - 1) + ChildEdge(r, t, n - 1)
  }

  /** The step along an aggregation, if t is at one of its ends; a pair of t with itself leads to t. */
  function AggregateEdge(r: Registry, t: TypeId, pair: (TypeId, TypeId)): seq<Edge>
    requires pair.0 < |r.names| && pair.1 < |r.names|
  {
    if pair.1 == t then [Edge("$" + r.names[pair.0], pair.0)]
    else if pair.0 == t then [Edge("$" + r.names[pair.1], pair.1)]
    else []
  }

  function AggregateEdges(r: Registry, t: TypeId, n: nat): seq<Edge>
    requires r.AggregatesInRange() && n <= |r.aggregates|
  {
    if n == 0 then [] else AggregateEdges(r, t, n - 1) + AggregateEdge(r, t, r.aggregates[n - 1])
  }

  /** All the steps out of a type, in the order they are tried. */
  ghost function Edges(r: Registry, t: TypeId): (es: seq<Edge>)
    requires r.WellFormed() && t < |r.attributes|
    ensures forall e :: e in es ==> e.target < |r.attributes|
  {
    EdgesInRange(r, t, |r.attributes[t]|, |r.names|, |r.aggregates|);
    AttributeEdges(r, r.attributes[t]) + ChildEdges(r, t, |r.names|) + AggregateEdges(r, t, |r.aggregates|)
  }

  lemma {:induction false} EdgesInRange(r: Registry, t: TypeId, i: nat, j: nat, k: nat)
    requires r.WellFormed() && t < |r.attributes|
    requires i <= |r.attributes[t]| && j <= |r.names| && k <= |r.aggregates|
    ensures forall e :: e in AttributeEdges(r, r.attributes[t][..i]) ==> e.target < |r.attributes|
    ensures r.attributes[t][..|r.attributes[t]|] == r.attributes[t]
    ensures forall e :: e in ChildEdges(r, t, j) ==> e.target < |r.attributes|
    ensures forall e :: e in AggregateEdges(r, t, k) ==> e.target < |r.attributes|
  {
    if i > 0 {
      EdgesInRange(r, t, i - 1, j, k);
      assert r.attributes[t][..i][..i - 1] == r.attributes[t][..i - 1];
    } else if j > 0 {
      EdgesInRange(r, t, i, j - 1, k);
    } else if k > 0 {
      EdgesInRange(r, t, i, j, k - 1);
    }
  }

  /** A path as it is recorded. */
  function Render(path: seq<string>): string {
    if path == [] then "" else Render(path[..|path| - 1]) + "/" + path[|path| - 1]
  }

  datatype Entry = Entry(tid: TypeId, path: string)

  // ---------------------------------------------------------------- the search

  ghost function Free(r: Registry, stack: seq<TypeId>): set<TypeId> {
    set t: TypeId | t < |r.attributes| && t !in stack
  }

  lemma FewerFree(r: Registry, stack: seq<TypeId>, t: TypeId)
    requires t < |r.attributes| && t !in stack
    ensures |Free(r, stack + [t])| < |Free(r, stack)|
  {
    assert Free(r, stack + [t]) == Free(r, stack) - {t};
  }

  /**
    What the search from t records, given the path to t and the types being processed.  It terminates on any type
    graph because each level of recursion leaves one registered type fewer off the stack.
  */
  ghost function Gathered(r: Registry, t: TypeId, path: seq<string>, stack: seq<TypeId>): seq<Entry>
    requires r.WellFormed() && t < |r.attributes|
    decreases |Free(r, stack)|, 1, 0
  {
    if t in stack then []
    else
      FewerFree(r, stack, t);
      [Entry(t, Render(path))] + AlongEdges(r, Edges(r, t), path, stack + [t])
  }

  ghost function AlongEdges(r: Registry, es: seq<Edge>, path: seq<string>, stack: seq<TypeId>): seq<Entry>
    requires r.WellFormed() && forall e :: e in es ==> e.target < |r.attributes|
    decreases |Free(r, stack)|, 2, |es|
  {
    if es == [] then []
    else
      var front, last := es[..|es| - 1], es[|es| - 1];
      AlongEdges(r, front, path, stack) + Gathered(r, last.target, path + [last.step], stack)
  }

  class StaticInformation {
    var output: seq<Entry>
    var currentPath: seq<string>
    var alreadyProcessed: seq<TypeId>

    constructor ()
      ensures output == [] && currentPath == [] && alreadyProcessed == []
    {
      output, currentPath, alreadyProcessed := [], [], [];
    }

    method GetCurrentPath() returns (path: string)
      ensures path == Render(currentPath)
    {
      path := "";
      for i := 0 to |currentPath|
        invariant path == Render(currentPath[..i])
      {
        assert currentPath[..i + 1][..i] == currentPath[..i];
        path := path + "/" + currentPath[i];
      }
      assert currentPath[..|currentPath|] == currentPath;
    }

    method HasAlreadyBeenProcessed(tid: TypeId) returns (b: bool)
      ensures b <==> tid in alreadyProcessed
    {
      for i := 0 to |alreadyProcessed|
        invariant tid !in alreadyProcessed[..i]
      {
        if alreadyProcessed[i] == tid {
          return true;
        }
      }
      return false;
    }

    /** What has been recorded from tid once the edges es have been followed. */
    ghost predicate Followed(r: Registry, tid: TypeId, es: seq<Edge>, start: seq<Entry>)
      requires r.WellFormed()
      reads this
    {
      && tid < |r.attributes| && tid !in alreadyProcessed && InRange(r, es)
      && output == start + AlongEdges(r, es, currentPath, alreadyProcessed + [tid])
    }

    /** Follows one more edge out of tid and comes back. */
    method Follow(r: Registry, tid: TypeId, e: Edge, ghost es: seq<Edge>, ghost start: seq<Entry>)
      requires r.WellFormed() && Followed(r, tid, es, start) && e.target < |r.attributes|
      modifies this
      ensures currentPath == old(currentPath) && alreadyProcessed == old(alreadyProcessed)
      ensures Followed(r, tid, es + [e], start)
      decreases |Free(r, alreadyProcessed)|, 0
    {
      FewerFree(r, alreadyProcessed, tid);
      ghost var path, stack := currentPath, alreadyProcessed;
      ghost var before, more := AlongEdges(r, es, path, stack + [tid]), Gathered(r, e.target, path + [e.step],
                                           stack + [tid]);
      currentPath := currentPath + [e.step];
      alreadyProcessed := alreadyProcessed + [tid];
      DoGather(r, e.target);
      alreadyProcessed := alreadyProcessed[..|alreadyProcessed| - 1];
      currentPath := currentPath[..|currentPath| - 1];
      assert alreadyProcessed == stack && currentPath == path;
      assert output == start + (before + more);
      AlongSnoc(r, es, e, path, stack + [tid]);
    }

    /** The first loop of the search. */
    method FollowAttributes(r: Registry, tid: TypeId, ghost start: seq<Entry>)
      requires r.WellFormed() && Followed(r, tid, [], start)
      modifies this
      ensures currentPath == old(currentPath) && alreadyProcessed == old(alreadyProcessed)
      ensures Followed(r, tid, AttributeEdges(r, r.attributes[tid]), start)
      decreases |Free(r, alreadyProcessed)|, 1
    {
      for i := 0 to |r.attributes[tid]|
        invariant currentPath == old(currentPath) && alreadyProcessed == old(alreadyProcessed)
        invariant Followed(r, tid, AttributeEdges(r, r.attributes[tid][..i]), start)
      {
        var info := r.attributes[tid][i];
        ghost var es := AttributeEdges(r, r.attributes[tid][..i]);
        assert r.attributes[tid][..i + 1][..i] == r.attributes[tid][..i];
        match info.checker {
          case PointerTo(pointee) =>
            if pointee == r.objectType {
              assert es + [] == es;
            } else {
              Follow(r, tid, Edge(info.name, pointee), es, start);
            }
          case ContainerOf(item) =>
            Follow(r, tid, Edge(info.name + "/[i]", item), es, start);
          case Plain =>
            assert es + [] == es;
        }
      }
      assert r.attributes[tid][..|r.attributes[tid]|] == r.attributes[tid];
    }

    /** The second loop: the types derived from tid. */
    method FollowChildren(r: Registry, tid: TypeId, ghost es: seq<Edge>, ghost start: seq<Entry>)
      requires r.WellFormed() && Followed(r, tid, es, start)
      modifies this
      ensures currentPath == old(currentPath) && alreadyProcessed == old(alreadyProcessed)
      ensures Followed(r, tid, es + ChildEdges(r, tid, |r.names|), start)
      decreases |Free(r, alreadyProcessed)|, 1
    {
      hide Followed, ChildEdges, AlongEdges, Gathered;
      NoChildren(r, tid, es);
      for j := 0 to |r.names|
        invariant currentPath == old(currentPath) && alreadyProcessed == old(alreadyProcessed)
        invariant Followed(r, tid, es + ChildEdges(r, tid, j), start)
      {
        NextChild(r, tid, es, j);
        if (j, tid) in r.childOf {
          Follow(r, tid, Edge("$" + r.names[j], j), es + ChildEdges(r, tid, j), start);
        }
      }
    }

    /** The third loop: the objects aggregated with tid. */
    method FollowAggregates(r: Registry, tid: TypeId, ghost es: seq<Edge>, ghost start: seq<Entry>)
      requires r.WellFormed() && Followed(r, tid, es, start)
      modifies this
      ensures currentPath == old(currentPath) && alreadyProcessed == old(alreadyProcessed)
      ensures Followed(r, tid, es + AggregateEdges(r, tid, |r.aggregates|), start)
      decreases |Free(r, alreadyProcessed)|, 1
    {
      hide Followed, AggregateEdges, AlongEdges, Gathered;
      NoAggregates(r, tid, es);
      for k := 0 to |r.aggregates|
        invariant currentPath == old(currentPath) && alreadyProcessed == old(alreadyProcessed)
        invariant Followed(r, tid, es + AggregateEdges(r, tid, k), start)
      {
        var pair := r.aggregates[k];
        NextAggregate(r, tid, es, k);
        if pair.0 == tid || pair.1 == tid {
          // A pair of tid with itself leads to tid: the second test of the source overrides the first.
          var other := if pair.1 == tid then pair.0 else pair.1;
          Follow(r, tid, Edge("$" + r.names[other], other), es + AggregateEdges(r, tid, k), start);
        }
      }
    }

    /** Gathers from a root; the output is then sorted and has no duplicates, and holds the same entries. */
    method Gather(r: Registry, tid: TypeId)
      requires r.WellFormed() && tid < |r.attributes| && alreadyProcessed == [] && currentPath == []
      modifies this
      ensures currentPath == [] && alreadyProcessed == []
      ensures Ascending(output)
      ensures forall i, j :: 0 <= i < j < |output| ==>
                || output[i].tid < output[j].tid
                || (output[i].tid == output[j].tid && TextBefore(output[i].path, output[j].path))
      ensures forall x :: x in output <==> x in old(output) || exists w :: ReachedBy(r, tid, w, x)
    {
      DoGather(r, tid);
      ghost var all := output;
      var sorted := Sort(output);
      output := Unique(sorted);
      SameElements(all, sorted);
      forall x
        ensures x in Gathered(r, tid, [], []) <==> exists w :: ReachedBy(r, tid, w, x)
      {
        RecordsSimpleWalks(r, tid, x);
      }
    }

    /** The paths of one type, in order. */
    method Get(tid: TypeId) returns (paths: seq<string>)
      ensures forall p :: p in paths <==> Entry(tid, p) in output
      ensures Ascending(output) ==> forall i, j :: 0 <= i < j < |paths| ==> TextBefore(paths[i], paths[j])
    {
      paths := [];
      for i := 0 to |output|
        invariant forall p :: p in paths <==> Entry(tid, p) in output[..i]
        invariant Ascending(output) ==> forall j, k :: 0 <= j < k < |paths| ==> TextBefore(paths[j], paths[k])
      {
        var tmp := output[i];
        assert output[..i + 1] == output[..i] + [tmp];
        if tmp.tid == tid {
          if Ascending(output) {
            forall j | 0 <= j < |paths|
              ensures TextBefore(paths[j], tmp.path)
            {
              assert paths[j] in paths;
              var k :| 0 <= k < i && output[k] == Entry(tid, paths[j]);
            }
          }
          paths := paths + [tmp.path];
        }
      }
      assert output[..|output|] == output;
    }

    /** The search restores both stacks and appends what it records. */
    method DoGather(r: Registry, tid: TypeId)
      requires r.WellFormed() && tid < |r.attributes|
      modifies this
      ensures output == old(output) + Gathered(r, tid, old(currentPath), old(alreadyProcessed))
      ensures currentPath == old(currentPath) && alreadyProcessed == old(alreadyProcessed)
      decreases |Free(r, alreadyProcessed)|, 2
    {
      var processed := HasAlreadyBeenProcessed(tid);
      if processed {
        return;
      }
      var here := GetCurrentPath();
      output := output + [Entry(tid, here)];
      ghost var start := output;
      FollowAttributes(r, tid, start);
      ghost var es := AttributeEdges(r, r.attributes[tid]);
      FollowChildren(r, tid, es, start);
      es := es + ChildEdges(r, tid, |r.names|);
      FollowAggregates(r, tid, es, start);
    }
  }

  lemma {:induction false} NoChildren(r: Registry, t: TypeId, es: seq<Edge>)
    ensures es + ChildEdges(r, t, 0) == es
  {
  }

  lemma NextChild(r: Registry, t: TypeId, es: seq<Edge>, n: nat)
    requires n < |r.names|
    ensures es + ChildEdges(r, t, n + 1)
         == (es + ChildEdges(r, t, n)) + if (n, t) in r.childOf then [Edge("$" + r.names[n], n)] else []
    ensures (n, t) !in r.childOf ==> es + ChildEdges(r, t, n + 1) == es + ChildEdges(r, t, n)
  {
  }

  lemma {:induction false} NoAggregates(r: Registry, t: TypeId, es: seq<Edge>)
    requires r.AggregatesInRange()
    ensures es + AggregateEdges(r, t, 0) == es
  {
  }

  lemma NextAggregate(r: Registry, t: TypeId, es: seq<Edge>, n: nat)
    requires r.AggregatesInRange() && n < |r.aggregates|
    ensures r.aggregates[n].0 < |r.names| && r.aggregates[n].1 < |r.names|
    ensures r.aggregates[n].1 == t ==>
              es + AggregateEdges(r, t, n + 1)
              == (es + AggregateEdges(r, t, n)) + [Edge("$" + r.names[r.aggregates[n].0], r.aggregates[n].0)]
    ensures r.aggregates[n].0 == t && r.aggregates[n].1 != t ==>
              es + AggregateEdges(r, t, n + 1)
              == (es + AggregateEdges(r, t, n)) + [Edge("$" + r.names[r.aggregates[n].1], r.aggregates[n].1)]
    ensures r.aggregates[n].0 != t && r.aggregates[n].1 != t ==>
              es + AggregateEdges(r, t, n + 1) == es + AggregateEdges(r, t, n)
  {
  }

  lemma {:induction false} AlongSnoc(r: Registry, es: seq<Edge>, e: Edge, path: seq<string>, stack: seq<TypeId>)
    requires r.WellFormed() && InRange(r, es) && e.target < |r.attributes|
    ensures InRange(r, es + [e])
    ensures AlongEdges(r, es + [e], path, stack)
         == AlongEdges(r, es, path, stack) + Gathered(r, e.target, path + [e.step], stack)
  {
    assert (es + [e])[..|es|] == es;
  }

  ghost predicate InRange(r: Registry, es: seq<Edge>) {
    forall e :: e in es ==> e.target < |r.attributes|
  }

  // ---------------------------------------------------------------- what is recorded

  /** A labelled walk from t: each edge leaves the type that the one before it reached. */
  ghost predicate IsWalk(r: Registry, t: TypeId, w: seq<Edge>)
    requires r.WellFormed() && t < |r.attributes|
    decreases |w|
  {
    w == [] || (w[0] in Edges(r, t) && IsWalk(r, w[0].target, w[1..]))
  }

  /** The walk visits no type twice, and none of those on the stack. */
  ghost predicate IsSimple(t: TypeId, w: seq<Edge>, stack: seq<TypeId>)
    decreases |w|
  {
    t !in stack && (w == [] || IsSimple(w[0].target, w[1..], stack + [t]))
  }

  function End(t: TypeId, w: seq<Edge>): TypeId {
    if w == [] then t else w[|w| - 1].target
  }

  function Steps(w: seq<Edge>): seq<string> {
    seq(|w|, i requires 0 <= i < |w| => w[i].step)
  }

  /** Read without recursion, a simple walk is one whose types are all different and off the stack. */
  lemma {:induction false} SimpleMeansDistinct(t: TypeId, w: seq<Edge>, stack: seq<TypeId>)
    ensures IsSimple(t, w, stack) <==>
              && t !in stack
              && (forall i :: 0 <= i < |w| ==> w[i].target != t && w[i].target !in stack)
              && forall i, j :: 0 <= i < j < |w| ==> w[i].target != w[j].target
    decreases |w|
  {
    if w != [] {
      var u, v := w[0].target, w[1..];
      SimpleMeansDistinct(u, v, stack + [t]);
      assert w == [w[0]] + v;
      if IsSimple(t, w, stack) {
        assert forall i :: 1 <= i < |w| ==> w[i] == v[i - 1];
      } else if t !in stack {
        assert forall i :: 0 <= i < |v| ==> v[i] == w[i + 1];
      }
    }
  }

  lemma StepsCons(path: seq<string>, w: seq<Edge>)
    requires w != []
    ensures path + Steps(w) == path + [w[0].step] + Steps(w[1..])
  {
  }

  lemma {:induction false} WalkFrom(r: Registry, t: TypeId, path: seq<string>, stack: seq<TypeId>,
                                    x: Entry) returns (w: seq<Edge>)
    requires r.WellFormed() && t < |r.attributes| && x in Gathered(r, t, path, stack)
    ensures IsWalk(r, t, w) && IsSimple(t, w, stack) && x == Entry(End(t, w), Render(path + Steps(w)))
    decreases |Free(r, stack)|, 1, 0
  {
    if x == Entry(t, Render(path)) {
      w := [];
      assert path + Steps(w) == path;
    } else {
      FewerFree(r, stack, t);
      var e, v := WalkAlong(r, Edges(r, t), path, stack + [t], x);
      w := [e] + v;
      assert w[1..] == v;
      StepsCons(path, w);
    }
  }

  lemma {:induction false} WalkAlong(r: Registry, es: seq<Edge>, path: seq<string>, stack: seq<TypeId>, x: Entry)
    returns (e: Edge, w: seq<Edge>)
    requires r.WellFormed() && InRange(r, es) && x in AlongEdges(r, es, path, stack)
    ensures e in es && IsWalk(r, e.target, w) && IsSimple(e.target, w, stack)
    ensures x == Entry(End(e.target, w), Render(path + [e.step] + Steps(w)))
    decreases |Free(r, stack)|, 2, |es|
  {
    var front, last := es[..|es| - 1], es[|es| - 1];
    if x in AlongEdges(r, front, path, stack) {
      e, w := WalkAlong(r, front, path, stack, x);
    } else {
      e := last;
      w := WalkFrom(r, e.target, path + [e.step], stack, x);
    }
  }

  lemma {:induction false} AlongContains(r: Registry, es: seq<Edge>, path: seq<string>, stack: seq<TypeId>, e: Edge,
                                         x: Entry)
    requires r.WellFormed() && InRange(r, es) && e in es
    requires x in Gathered(r, e.target, path + [e.step], stack)
    ensures x in AlongEdges(r, es, path, stack)
  {
    var front, last := es[..|es| - 1], es[|es| - 1];
    assert es == front + [last];
    if e != last {
      AlongContains(r, front, path, stack, e, x);
    }
  }

  lemma {:induction false} WalkIsGathered(r: Registry, t: TypeId, w: seq<Edge>, path: seq<string>, stack: seq<TypeId>)
    requires r.WellFormed() && t < |r.attributes| && IsWalk(r, t, w) && IsSimple(t, w, stack)
    ensures Entry(End(t, w), Render(path + Steps(w))) in Gathered(r, t, path, stack)
    decreases |w|
  {
    if w == [] {
      assert path + Steps(w) == path;
    } else {
      var e, v := w[0], w[1..];
      WalkIsGathered(r, e.target, v, path + [e.step], stack + [t]);
      StepsCons(path, w);
      var x := Entry(End(t, w), Render(path + Steps(w)));
      assert End(e.target, v) == End(t, w);
      AlongContains(r, Edges(r, t), path, stack + [t], e, x);
      assert Gathered(r, t, path, stack) == [Entry(t, Render(path))] + AlongEdges(r, Edges(r, t), path, stack + [t]);
    }
  }

  /**
    The steps there are out of a type: to the target of a pointer attribute, unless that is Object itself, by its name; to
    what a container attribute holds, by its name and "/[i]"; to a type of which t is an ancestor, and to the other end of
    an aggregation, both by "$" and that type's name.
  */
  ghost predicate IsStep(r: Registry, t: TypeId, e: Edge) {
    && t < |r.attributes|
    && (|| (exists i :: 0 <= i < |r.attributes[t]| &&
              r.attributes[t][i] == Attribute(e.step, PointerTo(e.target)) && e.target != r.objectType)
        || (exists i :: 0 <= i < |r.attributes[t]| &&
              r.attributes[t][i].checker == ContainerOf(e.target) && e.step == r.attributes[t][i].name + "/[i]")
        || (e.target < |r.names| && e.step == "$" + r.names[e.target] &&
              ((e.target, t) in r.childOf || (t, e.target) in r.aggregates || (e.target, t) in r.aggregates)))
  }

  lemma {:induction false} AttributeEdgesIff(r: Registry, attributes: seq<Attribute>, e: Edge)
    ensures e in AttributeEdges(r, attributes)
       <==> || (exists i :: 0 <= i < |attributes| &&
                  attributes[i] == Attribute(e.step, PointerTo(e.target)) && e.target != r.objectType)
            || (exists i :: 0 <= i < |attributes| &&
                  attributes[i].checker == ContainerOf(e.target) && e.step == attributes[i].name + "/[i]")
  {
    if attributes != [] {
      var front, last := attributes[..|attributes| - 1], attributes[|attributes| - 1];
      AttributeEdgesIff(r, front, e);
      assert attributes == front + [last];
      assert attributes[|front|] == last;
    }
  }

  lemma {:induction false} ChildEdgesIff(r: Registry, t: TypeId, n: nat, e: Edge)
    requires n <= |r.names|
    ensures e in ChildEdges(r, t, n) <==> e.target < n && e.step == "$" + r.names[e.target] && (e.target, t) in r.childOf
  {
    if n > 0 {
      ChildEdgesIff(r, t, n - 1, e);
    }
  }

  lemma {:induction false} AggregateEdgesIff(r: Registry, t: TypeId, n: nat, e: Edge)
    requires r.AggregatesInRange() && n <= |r.aggregates|
    ensures e in AggregateEdges(r, t, n)
       <==> && e.target < |r.names| && e.step == "$" + r.names[e.target]
            && ((t, e.target) in r.aggregates[..n] || (e.target, t) in r.aggregates[..n])
  {
    if n > 0 {
      AggregateEdgesIff(r, t, n - 1, e);
      assert r.aggregates[..n] == r.aggregates[..n - 1] + [r.aggregates[n - 1]];
    }
  }

  /** The search takes these steps, and no other. */
  lemma EdgesAreSteps(r: Registry, t: TypeId, e: Edge)
    requires r.WellFormed() && t < |r.attributes|
    ensures e in Edges(r, t) <==> IsStep(r, t, e)
  {
    AttributeEdgesIff(r, r.attributes[t], e);
    ChildEdgesIff(r, t, |r.names|, e);
    AggregateEdgesIff(r, t, |r.aggregates|, e);
    assert r.aggregates[..|r.aggregates|] == r.aggregates;
    EdgesInRange(r, t, |r.attributes[t]|, |r.names|, |r.aggregates|);
  }

  /** A text that is "/" and the first step, then "/" and the second step, and so on. */
  ghost predicate Spells(text: string, path: seq<string>) {
    if path == [] then text == ""
    else "/" + path[0] <= text && Spells(text[1 + |path[0]|..], path[1..])
  }

  lemma {:induction false} RenderCons(step: string, path: seq<string>)
    ensures Render([step] + path) == "/" + step + Render(path)
  {
    if path == [] {
      assert [step] + path == [step] && [step][..0] == [];
    } else {
      var front, last := path[..|path| - 1], path[|path| - 1];
      RenderCons(step, front);
      assert ([step] + path)[..|path|] == [step] + front;
      assert "/" + step + Render(front) + "/" + last == "/" + step + (Render(front) + "/" + last);
    }
  }

  /** A path's text is made of its steps, in order, with "/" before each. */
  lemma {:induction false} RenderSpells(path: seq<string>, text: string)
    ensures Spells(text, path) <==> text == Render(path)
  {
    if path != [] {
      var first, rest := "/" + path[0], text[if |text| > |path[0]| then 1 + |path[0]| else 0..];
      RenderSpells(path[1..], rest);
      RenderCons(path[0], path[1..]);
      assert [path[0]] + path[1..] == path;
      assert (first + Render(path[1..]))[|first|..] == Render(path[1..]);
      if first <= text {
        assert text == first + rest;
      }
    }
  }

  /** The type from which step i is taken. */
  ghost function At(root: TypeId, w: seq<Edge>, i: nat): TypeId
    requires i <= |w|
  {
    if i == 0 then root else w[i - 1].target
  }

  /** A sequence of steps from a root, in which no type is met twice, and what is recorded for it. */
  ghost predicate ReachedBy(r: Registry, root: TypeId, w: seq<Edge>, x: Entry) {
    && (forall i :: 0 <= i < |w| ==> IsStep(r, At(root, w, i), w[i]))
    && (forall i :: 0 <= i < |w| ==> w[i].target != root)
    && (forall i, j :: 0 <= i < j < |w| ==> w[i].target != w[j].target)
    && x.tid == At(root, w, |w|)
    && Spells(x.path, Steps(w))
  }

  lemma {:induction false} WalkIsSteps(r: Registry, t: TypeId, w: seq<Edge>)
    requires r.WellFormed() && t < |r.attributes|
    ensures IsWalk(r, t, w) <==> forall i :: 0 <= i < |w| ==> IsStep(r, At(t, w, i), w[i])
    decreases |w|
  {
    if w != [] {
      var u, v := w[0].target, w[1..];
      EdgesAreSteps(r, t, w[0]);
      if w[0] in Edges(r, t) {
        WalkIsSteps(r, u, v);
        hide IsStep, Edges;
        assert forall i :: 0 <= i < |v| ==> v[i] == w[i + 1] && At(u, v, i) == At(t, w, i + 1);
        if IsWalk(r, t, w) {
          forall i | 0 <= i < |w|
            ensures IsStep(r, At(t, w, i), w[i])
          {
            assert i > 0 ==> IsStep(r, At(u, v, i - 1), v[i - 1]);
          }
        }
      } else {
        assert !IsStep(r, At(t, w, 0), w[0]);
      }
    }
  }

  lemma {:induction false} ReachedByWalk(r: Registry, root: TypeId, w: seq<Edge>, x: Entry)
    requires r.WellFormed() && root < |r.attributes|
    ensures ReachedBy(r, root, w, x) <==>
              IsWalk(r, root, w) && IsSimple(root, w, []) && x == Entry(End(root, w), Render([] + Steps(w)))
  {
    hide IsStep, IsWalk, IsSimple, Render, Spells, Steps;
    WalkIsSteps(r, root, w);
    SimpleMeansDistinct(root, w, []);
    RenderSpells(Steps(w), x.path);
    assert [] + Steps(w) == Steps(w);
  }

  /** From a root, on any type graph, exactly the simple walks are recorded. */
  lemma {:induction false} RecordsSimpleWalks(r: Registry, root: TypeId, x: Entry)
    requires r.WellFormed() && root < |r.attributes|
    ensures x in Gathered(r, root, [], []) <==> exists w :: ReachedBy(r, root, w, x)
  {
    if x in Gathered(r, root, [], []) {
      var w := WalkFrom(r, root, [], [], x);
      ReachedByWalk(r, root, w, x);
    }
    if w :| ReachedBy(r, root, w, x) {
      ReachedByWalk(r, root, w, x);
      WalkIsGathered(r, root, w, [], []);
    }
  }

  // ---------------------------------------------------------------- order and duplicates

  /** Lexicographic order on text, by character code. */
  predicate TextBefore(a: string, b: string) {
    b != [] && (a == [] || a[0] < b[0] || (a[0] == b[0] && TextBefore(a[1..], b[1..])))
  }

  predicate Before(x: Entry, y: Entry) {
    x.tid < y.tid || (x.tid == y.tid && TextBefore(x.path, y.path))
  }

  /** One text is before another if it is a shorter start of it, or has the smaller character where they first differ. */
  lemma {:induction false} TextBeforeIff(a: string, b: string)
    ensures TextBefore(a, b)
       <==> a < b || exists k :: 0 <= k < |a| && k < |b| && a[..k] == b[..k] && a[k] < b[k]
  {
    if a != [] && b != [] {
      TextBeforeIff(a[1..], b[1..]);
      if a[0] == b[0] {
        assert a == [a[0]] + a[1..] && b == [b[0]] + b[1..];
        if TextBefore(a, b) && !(a < b) {
          var k :| 0 <= k < |a[1..]| && k < |b[1..]| && a[1..][..k] == b[1..][..k] && a[1..][k] < b[1..][k];
          assert a[..k + 1] == [a[0]] + a[1..][..k] && b[..k + 1] == [b[0]] + b[1..][..k];
          assert a[k + 1] < b[k + 1];
        }
        if k :| 0 <= k < |a| && k < |b| && a[..k] == b[..k] && a[k] < b[k] {
          assert k > 0;
          assert a[1..][..k - 1] == a[..k][1..] && b[1..][..k - 1] == b[..k][1..];
          assert a[1..][k - 1] < b[1..][k - 1];
        }
      } else {
        assert a[..0] == b[..0];
        if k :| 0 <= k < |a| && k < |b| && a[..k] == b[..k] && a[k] < b[k] {
          assert k > 0 ==> a[..k][0] == b[..k][0];
        }
      }
    }
  }

  lemma {:induction false} TextOrder(a: string, b: string, c: string)
    ensures TextBefore(a, b) && TextBefore(b, c) ==> TextBefore(a, c)
    ensures !TextBefore(a, a)
    ensures TextBefore(a, b) || a == b || TextBefore(b, a)
  {
    if a != [] {
      TextOrder(a[1..], if b == [] then [] else b[1..], if c == [] then [] else c[1..]);
      if b != [] && a[0] == b[0] && a[1..] == b[1..] {
        assert a == [a[0]] + a[1..] && b == [b[0]] + b[1..];
      }
    }
  }

  lemma Order(x: Entry, y: Entry, z: Entry)
    ensures Before(x, y) && Before(y, z) ==> Before(x, z)
    ensures !Before(x, x)
    ensures Before(x, y) || x == y || Before(y, x)
  {
    TextOrder(x.path, y.path, z.path);
  }

  ghost predicate Ascending(xs: seq<Entry>) {
    forall i, j :: 0 <= i < j < |xs| ==> Before(xs[i], xs[j])
  }

  ghost predicate Sorted(xs: seq<Entry>) {
    forall i, j :: 0 <= i < j < |xs| ==> !Before(xs[j], xs[i])
  }

  lemma SameElements(a: seq<Entry>, b: seq<Entry>)
    requires multiset(a) == multiset(b)
    ensures forall x :: x in a <==> x in b
  {
    assert forall x :: x in a <==> x in multiset(a);
  }

  /** Stands for the library's sort: a sorted rearrangement. */
  method Sort(xs: seq<Entry>) returns (ys: seq<Entry>)
    ensures Sorted(ys) && multiset(ys) == multiset(xs)
  {
    ys := [];
    for i := 0 to |xs|
      invariant Sorted(ys) && multiset(ys) == multiset(xs[..i])
    {
      assert xs[..i + 1] == xs[..i] + [xs[i]];
      ys := Insert(ys, xs[i]);
    }
    assert xs[..|xs|] == xs;
  }

  method Insert(ys: seq<Entry>, x: Entry) returns (zs: seq<Entry>)
    requires Sorted(ys)
    ensures Sorted(zs) && multiset(zs) == multiset(ys) + multiset{x}
  {
    var k := |ys|;
    while k > 0 && Before(x, ys[k - 1])
      invariant 0 <= k <= |ys|
      invariant forall i :: k <= i < |ys| ==> Before(x, ys[i])
    {
      k := k - 1;
    }
    zs := ys[..k] + [x] + ys[k..];
    InsertedSorted(ys, k, x);
    assert ys == ys[..k] + ys[k..];
  }

  lemma InsertedSorted(ys: seq<Entry>, k: nat, x: Entry)
    requires Sorted(ys) && k <= |ys| && (k > 0 ==> !Before(x, ys[k - 1])) && forall i :: k <= i < |ys| ==> Before(x, ys[i])
    ensures Sorted(ys[..k] + [x] + ys[k..])
  {
    forall i | 0 <= i < k
      ensures !Before(x, ys[i])
    {
      Order(x, ys[i], ys[k - 1]);
      Order(ys[i], ys[k - 1], x);
    }
    forall i | k <= i < |ys|
      ensures !Before(ys[i], x)
    {
      Order(x, ys[i], x);
    }
    hide Before;
  }

  /** Drops every entry that equals the one before it. */
  method Unique(xs: seq<Entry>) returns (ys: seq<Entry>)
    requires Sorted(xs)
    ensures Ascending(ys) && forall x :: x in ys <==> x in xs
  {
    ys := [];
    for i := 0 to |xs|
      invariant Ascending(ys) && (forall x :: x in ys <==> x in xs[..i])
      invariant if i == 0 then ys == [] else ys != [] && ys[|ys| - 1] == xs[i - 1]
    {
      assert xs[..i + 1] == xs[..i] + [xs[i]];
      if ys == [] || ys[|ys| - 1] != xs[i] {
        forall j | 0 <= j < |ys|
          ensures Before(ys[j], xs[i])
        {
          Order(ys[j], xs[i - 1], xs[i]);
          Order(xs[i - 1], xs[i], xs[i]);
        }
        ys := ys + [xs[i]];
      }
    }
    assert xs[..|xs|] == xs;
  }

  /** A sorted list without duplicates is determined by its entries. */
  lemma {:induction false} AscendingIsCanonical(xs: seq<Entry>, ys: seq<Entry>)
    requires Ascending(xs) && Ascending(ys) && forall x :: x in xs <==> x in ys
    ensures xs == ys
  {
    assert |xs| > 0 ==> xs[0] in ys;
    assert |ys| > 0 ==> ys[0] in xs;
    if |xs| > 0 && |ys| > 0 {
      SameFirst(xs, ys);
      SameRest(xs, ys);
      SameRest(ys, xs);
      AscendingIsCanonical(xs[1..], ys[1..]);
      assert xs == [xs[0]] + xs[1..] && ys == [ys[0]] + ys[1..];
    }
  }

  lemma SameFirst(xs: seq<Entry>, ys: seq<Entry>)
    requires Ascending(xs) && Ascending(ys) && |xs| > 0 && |ys| > 0 && xs[0] in ys && ys[0] in xs
    ensures xs[0] == ys[0]
  {
    Order(xs[0], ys[0], xs[0]);
  }

  lemma SameRest(xs: seq<Entry>, ys: seq<Entry>)
    requires Ascending(xs) && |xs| > 0 && |ys| > 0 && xs[0] == ys[0] && forall x :: x in xs ==> x in ys
    ensures forall x :: x in xs[1..] ==> x in ys[1..]
  {
    forall x | x in xs[1..]
      ensures x in ys[1..]
    {
      Order(x, x, x);
      assert x in xs && x in ys && x != ys[0];
    }
  }
}
