/**
  Pointer arrays of extern variables (nsc-0.5.3/globaliser/handle_global.cc): an array's initialiser would refer to the
  variable, so it is blanked at the end of the file if the variable was not referenced.
*/
module ArrayElimination {
  import opened Wrappers

  /**
    What the parser meets, in order: definitions that emit a pointer array, extern or not, definitions that emit none,
    and references to a variable at file scope.  An array is told by the place of its definition.
  */
  datatype Event = Array(x: string, isExtern: bool) | Plain(x: string) | Reference(x: string)

  /** The definition that a reference at place j uses. */
  function Latest(events: seq<Event>, x: string, j: nat): (i: Option<nat>)
    requires j <= |events|
    ensures i.Some? ==> i.value < j && events[i.value].x == x && !events[i.value].Reference?
    ensures forall n :: (if i.Some? then i.value else -1) < n < j ==> events[n].x != x || events[n].Reference?
  {
    if j == 0 then None
    else if events[j - 1].x == x && !events[j - 1].Reference? then Some(j - 1)
    else Latest(events, x, j - 1)
  }

  /** An emitted reference names the i-th array. */
  ghost predicate IsNamed(events: seq<Event>, i: nat) {
    exists j :: 0 <= j < |events| && events[j].Reference? && Latest(events, events[j].x, j) == Some(i)
  }

  predicate IsArray(events: seq<Event>, i: nat) {
    i < |events| && events[i].Array?
  }

  /** An extern array whose variable has not been referenced since. */
  predicate Unreferenced(events: seq<Event>, i: nat) {
    && IsArray(events, i) && events[i].isExtern
    && forall j :: i < j < |events| ==> events[j] != Reference(events[i].x)
  }

  /** No array that a reference names is unreferenced, however often its variable is declared. */
  lemma NamedIsReferenced(events: seq<Event>, i: nat)
    requires IsNamed(events, i)
    ensures !Unreferenced(events, i)
  {
    var j :| 0 <= j < |events| && events[j].Reference? && Latest(events, events[j].x, j) == Some(i);
    assert i < j && events[j] == Reference(events[i].x);
  }

  lemma UnreferencedStep(events: seq<Event>, e: Event, i: nat)
    ensures Unreferenced(events + [e], i)
       <==> if i < |events| then Unreferenced(events, i) && e != Reference(events[i].x)
            else i == |events| && e.Array? && e.isExtern
  {
    var all := events + [e];
    if i < |events| && Unreferenced(all, i) {
      assert all[|events|] == e;
      forall j | i < j < |events|
        ensures events[j] != Reference(events[i].x)
      {
        assert all[j] == events[j];
      }
    }
  }

  class Initialisers {
    var waiting: map<string, seq<nat>>   // extern arrays by variable
    var text: map<nat, string>           // every array's initialiser
    var count: nat

    ghost predicate Tracks(events: seq<Event>)
      reads this
    {
      && count == |events|
      && (forall x, i: nat :: x in waiting && i in waiting[x] ==> Unreferenced(events, i) && events[i].x == x)
      && (forall i: nat :: Unreferenced(events, i) ==> events[i].x in waiting && i in waiting[events[i].x])
      && (forall i: nat :: i in text <==> IsArray(events, i))
      && (forall i: nat :: i in text ==> text[i] != "")
    }

    constructor ()
      ensures Tracks([])
    {
      waiting, text, count := map[], map[], 0;
    }

    method RegisterInitialiser(x: string, i: nat)
      modifies `waiting
      ensures waiting == old(waiting)[x := (if x in old(waiting) then old(waiting)[x] else []) + [i]]
    {
      if x in waiting {
        waiting := waiting[x := waiting[x] + [i]];
      } else {
        assert [] + [i] == [i];
        waiting := waiting[x := [i]];
      }
    }

    method RegisterReference(x: string)
      modifies `waiting
      ensures waiting == old(waiting) - {x}
    {
      if x in waiting {
        waiting := waiting - {x};
      }
    }

    method Handle(e: Event, initialiser: string, ghost events: seq<Event>)
      requires Tracks(events) && initialiser != ""
      modifies this
      ensures Tracks(events + [e])
      ensures text == if e.Array? then old(text)[|events| := initialiser] else old(text)
    {
      forall j: nat
        ensures Unreferenced(events + [e], j)
           <==> if j < |events| then Unreferenced(events, j) && e != Reference(events[j].x)
                else j == |events| && e.Array? && e.isExtern
      {
        UnreferencedStep(events, e, j);
      }
      ghost var all, before := events + [e], waiting;
      assert forall j :: 0 <= j < |events| ==> all[j] == events[j];
      assert all[count] == e;
      match e {
        case Array(x, isExtern) =>
          text := text[count := initialiser];
          if isExtern {
            RegisterInitialiser(x, count);
          }
        case Reference(x) =>
          RegisterReference(x);
        case Plain(_) =>
      }
      forall x, i: nat | x in waiting && i in waiting[x]
        ensures Unreferenced(all, i) && all[i].x == x
      {
        if x != e.x || i != count || !e.Array? || !e.isExtern {
          assert x in before && i in before[x];
          assert Unreferenced(events, i) && events[i].x == x;
          assert e != Reference(x);
        }
      }
      forall i: nat | Unreferenced(all, i)
        ensures all[i].x in waiting && i in waiting[all[i].x]
      {
        if i < count {
          assert events[i].x in before && i in before[events[i].x];
        }
      }
      count := count + 1;
    }

    method Blank(nodes: seq<nat>)
      requires forall j :: 0 <= j < |nodes| ==> nodes[j] in text
      modifies `text
      ensures text.Keys == old(text).Keys
      ensures forall i :: i in text ==> text[i] == if i in nodes then "" else old(text)[i]
    {
      for j := 0 to |nodes|
        invariant text.Keys == old(text).Keys
        invariant forall i :: i in text ==> text[i] == if i in nodes[..j] then "" else old(text)[i]
      {
        assert nodes[..j + 1] == nodes[..j] + [nodes[j]];
        text := text[nodes[j] := ""];
      }
      assert nodes[..|nodes|] == nodes;
    }

    /** Blanks the initialisers that are still waiting. */
    method SpecialCase(ghost events: seq<Event>)
      requires Tracks(events)
      modifies `text
      ensures text.Keys == old(text).Keys
      ensures forall i :: i in text ==> text[i] == if Unreferenced(events, i) then "" else old(text)[i]
    {
      var todo := waiting.Keys;
      ghost var before := text;
      while todo != {}
        invariant todo <= waiting.Keys && text.Keys == before.Keys
        invariant forall i :: i in text ==>
                    text[i] == if Unreferenced(events, i) && events[i].x !in todo then "" else before[i]
        decreases |todo|
      {
        var x :| x in todo;
        ghost var now, done := text, todo;
        todo := todo - {x};
        var nodes := waiting[x];
        forall j | 0 <= j < |nodes|
          ensures nodes[j] in text
        {
          assert nodes[j] in waiting[x];
        }
        Blank(nodes);
        forall i | i in text
          ensures text[i] == if Unreferenced(events, i) && events[i].x !in todo then "" else before[i]
        {
          assert now[i] == if Unreferenced(events, i) && events[i].x !in done then "" else before[i];
          assert i in nodes <==> Unreferenced(events, i) && events[i].x == x;
        }
      }
    }
  }

  /** After a whole file an array's initialiser is blank exactly if no reference to an extern variable came after it. */
  method File(events: seq<Event>, initialisers: seq<string>) returns (text: map<nat, string>)
    requires |initialisers| == |events| && forall i :: 0 <= i < |events| ==> initialisers[i] != ""
    ensures forall i: nat :: i in text <==> IsArray(events, i)
    ensures forall i: nat :: i in text ==> text[i] == if Unreferenced(events, i) then "" else initialisers[i]
    ensures forall i: nat :: IsNamed(events, i) && IsArray(events, i) ==> text[i] != ""
  {
    var s := new Initialisers();
    for n := 0 to |events|
      invariant fresh(s) && s.Tracks(events[..n])
      invariant forall i :: i in s.text ==> i < n && s.text[i] == initialisers[i]
    {
      s.Handle(events[n], initialisers[n], events[..n]);
      assert events[..n + 1] == events[..n] + [events[n]];
    }
    assert events[..|events|] == events;
    s.SpecialCase(events);
    text := s.text;
    forall i: nat | IsNamed(events, i) && IsArray(events, i)
      ensures text[i] != ""
    {
      NamedIsReferenced(events, i);
    }
  }
}
