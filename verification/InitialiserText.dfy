/**
  The text of an initialiser, copied for each stack by replacing what belongs to stack 0
  (nsc-0.5.3/globaliser/handle_global.cc).
*/
module InitialiserText {
  import opened Wrappers
  import opened Decimals

  // ---------------------------------------------------------------- finding and replacing

  predicate OccursAt(s: string, p: string, i: nat) {
    i + |p| <= |s| && s[i..i + |p|] == p
  }

  ghost predicate Occurs(s: string, p: string) {
    exists i: nat :: OccursAt(s, p, i)
  }

  /** The first occurrence. */
  function Find(s: string, p: string, from: nat): (r: Option<nat>)
    requires from <= |s|
    ensures r.Some? ==> from <= r.value && OccursAt(s, p, r.value)
    ensures forall i :: from <= i < (if r.Some? then r.value else |s| + 1) ==> !OccursAt(s, p, i)
    decreases |s| - from
  {
    if OccursAt(s, p, from) then Some(from) else if from == |s| then None else Find(s, p, from + 1)
  }

  function Replaced(s: string, p: string, r: string, i: nat): string
    requires OccursAt(s, p, i)
  {
    s[..i] + r + s[i + |p|..]
  }

  /** How far before the end the first occurrence is. */
  function Room(s: string, p: string): nat {
    match Find(s, p, 0)
    case None => 0
    case Some(i) => |s| - i + 1
  }

  /** Replacing the first occurrence, whatever the text, leaves the next one nearer to the end. */
  ghost predicate Progress(p: string, r: string) {
    forall s: string :: Find(s, p, 0).Some? ==> Room(Replaced(s, p, r, Find(s, p, 0).value), p) < Room(s, p)
  }

  ghost function ReplaceAll(s: string, p: string, r: string): string
    requires Progress(p, r)
    decreases Room(s, p)
  {
    match Find(s, p, 0)
    case None => s
    case Some(i) => ReplaceAll(Replaced(s, p, r, i), p, r)
  }

  /** What is replaced does not occur in the end. */
  lemma {:induction false} AllReplaced(s: string, p: string, r: string)
    requires Progress(p, r)
    ensures !Occurs(ReplaceAll(s, p, r), p)
    decreases Room(s, p)
  {
    if Find(s, p, 0).Some? {
      AllReplaced(Replaced(s, p, r, Find(s, p, 0).value), p, r);
    }
  }

  // ---------------------------------------------------------------- occurrences

  /** The text visibly differs from d at position q. */
  predicate Differs(s: string, d: string, q: nat) {
    exists i :: 0 <= i < |d| && q + i < |s| && s[q + i] != d[i]
  }

  ghost predicate DiffersUpTo(s: string, d: string, n: nat) {
    forall q: nat :: q < n ==> Differs(s, d, q)
  }

  /**
    A pattern p with d at its offset, its replacement r, and what both begin with; d can only be found where a pattern
    is.
  */
  datatype Pattern = Pattern(p: string, r: string, d: string, offset: nat, head: string)

  ghost predicate IsPattern(t: Pattern) {
    && t.head <= t.p && t.head <= t.r && t.head != "" && t.offset <= 1 && t.d != "" && t.d == t.p[t.offset..]
    && (t.offset == 1 ==> t.p[0] != t.d[0])
    && DiffersUpTo(t.r, t.d, |t.r|)
    && forall j :: 1 <= j < |t.p| ==> !OccursAt(t.p, t.head, j)
  }

  function Join(cs: seq<string>, x: string): string {
    if cs == [] then "" else if |cs| == 1 then cs[0] else cs[0] + x + Join(cs[1..], x)
  }

  lemma DiffersLonger(s: string, u: string, d: string, q: nat)
    requires Differs(s, d, q)
    ensures Differs(s + u, d, q)
  {
    var i :| 0 <= i < |d| && q + i < |s| && s[q + i] != d[i];
    assert (s + u)[q + i] == s[q + i];
  }

  lemma DiffersLater(b: string, s: string, d: string, q: nat)
    requires Differs(s, d, q)
    ensures Differs(b + s, d, |b| + q)
  {
    var i :| 0 <= i < |d| && q + i < |s| && s[q + i] != d[i];
    assert (b + s)[|b| + q + i] == s[q + i];
  }

  lemma NoOccurrence(s: string, t: Pattern, q: nat)
    requires IsPattern(t) && Differs(s, t.d, q + t.offset)
    ensures !OccursAt(s, t.p, q)
  {
    var i :| 0 <= i < |t.d| && q + t.offset + i < |s| && s[q + t.offset + i] != t.d[i];
    OneDifference(s, t.p, q, t.offset + i);
  }

  lemma OneDifference(s: string, p: string, q: nat, j: nat)
    requires j < |p| && (q + j >= |s| || s[q + j] != p[j])
    ensures !OccursAt(s, p, q)
  {
  }

  /** What is told apart by its characters cannot cross a text that has none of them. */
  lemma AcrossIff(a: string, sep: string, b: string, m: string)
    requires sep != "" && m != "" && forall c :: c in sep ==> c !in m
    ensures Occurs(a + sep + b, m) <==> Occurs(a, m) || Occurs(b, m)
  {
    var s, n := a + sep + b, |a| + |sep|;
    assert s[..|a|] == a && s[n..] == b;
    if i: nat :| OccursAt(a, m, i) {
      assert s[i..i + |m|] == s[..|a|][i..i + |m|];
      assert OccursAt(s, m, i);
    }
    if i: nat :| OccursAt(b, m, i) {
      assert s[n + i..n + i + |m|] == s[n..][i..i + |m|];
      assert OccursAt(s, m, n + i);
    }
    if i: nat :| OccursAt(s, m, i) {
      if i + |m| <= |a| {
        assert s[i..i + |m|] == s[..|a|][i..i + |m|];
        assert OccursAt(a, m, i);
      } else if i >= n {
        assert s[i..i + |m|] == s[n..][i - n..i - n + |m|];
        assert OccursAt(b, m, i - n);
      } else {
        NotAcross(a, sep, b, m, i);
      }
    }
  }

  lemma NotAcross(a: string, sep: string, b: string, m: string, i: nat)
    requires sep != "" && m != "" && forall c :: c in sep ==> c !in m
    requires |a| < i + |m| && i < |a| + |sep|
    ensures !OccursAt(a + sep + b, m, i)
  {
    var s, at := a + sep + b, if i < |a| then |a| else i;
    assert s[at] == sep[at - |a|] && sep[at - |a|] in sep;
    assert m[at - i] in m;
    OneDifference(s, m, i, at - i);
  }

  lemma NotWithout(s: string, m: string)
    requires m != "" && m[0] !in s
    ensures !Occurs(s, m)
  {
    forall i: nat
      ensures !OccursAt(s, m, i)
    {
      if i < |s| {
        assert s[i] in s;
        OneDifference(s, m, i, 0);
      }
    }
  }

  lemma {:induction false} FirstIs(s: string, p: string, i: nat)
    requires OccursAt(s, p, i) && forall q :: 0 <= q < i ==> !OccursAt(s, p, q)
    ensures Find(s, p, 0) == Some(i)
  {
  }

  /** A pattern from q would have the head of another within it. */
  lemma NotOver(b: string, t: Pattern, rest: string, q: nat)
    requires IsPattern(t) && q < |b| && |b| - q + |t.head| < |t.p|
    ensures !OccursAt(b + (t.p + rest), t.p, q)
  {
    var s, j := b + (t.p + rest), |b| - q;
    assert !OccursAt(t.p, t.head, j);
    var m :| 0 <= m < |t.head| && t.p[j + m] != t.head[m];
    assert s[|b| + m] == t.p[m] == t.head[m];
    OneDifference(s, t.p, q, j + m);
  }

  /** An occurrence before a pattern is one before its replacement. */
  lemma SeenBefore(b: string, t: Pattern, rest: string, rest1: string, q: nat)
    requires IsPattern(t) && q < |b| && OccursAt(b + (t.p + rest), t.p, q)
    ensures OccursAt(b + (t.r + rest1), t.p, q)
  {
    var s, s1, n := b + (t.p + rest), b + (t.r + rest1), |b|;
    assert s[q..q + |t.p|] == t.p;
    if n - q + |t.head| < |t.p| {
      NotOver(b, t, rest, q);
    } else {
      forall i | q <= i < q + |t.p|
        ensures i < |s1| && s1[i] == s[i]
      {
        if i >= n {
          assert s1[i] == t.r[i - n] == t.head[i - n] == t.p[i - n] == s[i];
        }
      }
      assert s1[q..q + |t.p|] == s[q..q + |t.p|];
    }
  }

  /** Pieces joined by the pattern become the pieces joined by its replacement, if the pattern does not occur in those. */
  lemma {:induction false} PiecesReplaced(b: string, cs: seq<string>, t: Pattern)
    requires IsPattern(t) && Progress(t.p, t.r) && cs != [] && !Occurs(b + Join(cs, t.r), t.p)
    ensures ReplaceAll(b + Join(cs, t.p), t.p, t.r) == b + Join(cs, t.r)
    decreases |cs|
  {
    var c := cs[0];
    if |cs| > 1 {
      var rest, rest1 := Join(cs[1..], t.p), Join(cs[1..], t.r);
      Regroup(b, c, t.p, rest);
      Regroup(b, c, t.r, rest1);
      PatternFound(b + c, t, rest, rest1);
      hide OccursAt, IsPattern, Progress, Find, Replaced;
      PiecesReplaced(b + c + t.r, cs[1..], t);
    }
  }

  /** And only then. */
  lemma {:induction false} PiecesReplacedIff(cs: seq<string>, t: Pattern)
    requires IsPattern(t) && Progress(t.p, t.r) && cs != []
    ensures ReplaceAll(Join(cs, t.p), t.p, t.r) == Join(cs, t.r) <==> !Occurs(Join(cs, t.r), t.p)
  {
    hide IsPattern, Progress, ReplaceAll;
    AllReplaced(Join(cs, t.p), t.p, t.r);
    NothingBefore(Join(cs, t.p), Join(cs, t.r));
    if !Occurs(Join(cs, t.r), t.p) {
      PiecesReplaced("", cs, t);
    }
  }

  lemma Regroup(b: string, c: string, x: string, rest: string)
    ensures b + (c + x + rest) == b + c + (x + rest) == b + c + x + rest
  {
  }

  lemma PatternFound(b: string, t: Pattern, rest: string, rest1: string)
    requires IsPattern(t) && !Occurs(b + (t.r + rest1), t.p)
    ensures var s := b + (t.p + rest);
            Find(s, t.p, 0) == Some(|b|) && Replaced(s, t.p, t.r, |b|) == b + t.r + rest
  {
    var s, n := b + (t.p + rest), |b|;
    PatternThere(b, t, rest);
    forall q: nat | q < n
      ensures !OccursAt(s, t.p, q)
    {
      if OccursAt(s, t.p, q) {
        SeenBefore(b, t, rest, rest1, q);
      }
    }
    hide OccursAt, Find, IsPattern;
    FirstIs(s, t.p, n);
  }

  lemma PatternThere(b: string, t: Pattern, rest: string)
    requires IsPattern(t)
    ensures OccursAt(b + (t.p + rest), t.p, |b|)
    ensures Replaced(b + (t.p + rest), t.p, t.r, |b|) == b + t.r + rest
  {
    var s, n := b + (t.p + rest), |b|;
    assert s[n..n + |t.p|] == t.p;
    assert s[..n] == b && s[n + |t.p|..] == rest;
  }

  // ---------------------------------------------------------------- termination

  /** Whatever the text, the next occurrence is past the replaced one. */
  lemma NextIsLater(s: string, t: Pattern, i: nat, q: nat)
    requires IsPattern(t) && OccursAt(s, t.p, i) && forall j: nat :: j < i ==> !OccursAt(s, t.p, j)
    requires OccursAt(Replaced(s, t.p, t.r, i), t.p, q)
    ensures q + t.offset >= i + |t.r|
  {
    var s1 := Replaced(s, t.p, t.r, i);
    if i <= q + t.offset < i + |t.r| {
      InReplacement(s, t, i, q);
    } else if q + t.offset < i {
      BeforeReplacement(s, t, i, q);
    }
  }

  lemma InReplacement(s: string, t: Pattern, i: nat, q: nat)
    requires IsPattern(t) && OccursAt(s, t.p, i) && i <= q + t.offset < i + |t.r|
    ensures !OccursAt(Replaced(s, t.p, t.r, i), t.p, q)
  {
    var b, tail := s[..i], s[i + |t.p|..];
    assert Replaced(s, t.p, t.r, i) == b + t.r + tail && Differs(t.r, t.d, q + t.offset - |b|);
    hide OccursAt, Replaced, Differs, DiffersUpTo;
    MiddleDiffers(b, tail, t, q);
  }

  lemma MiddleDiffers(b: string, tail: string, t: Pattern, q: nat)
    requires IsPattern(t) && |b| <= q + t.offset && Differs(t.r, t.d, q + t.offset - |b|)
    ensures !OccursAt(b + t.r + tail, t.p, q)
  {
    hide Differs, DiffersUpTo, IsPattern, OccursAt;
    DiffersLater(b, t.r, t.d, q + t.offset - |b|);
    DiffersLonger(b + t.r, tail, t.d, q + t.offset);
    NoOccurrence(b + t.r + tail, t, q);
  }

  lemma BeforeReplacement(s: string, t: Pattern, i: nat, q: nat)
    requires IsPattern(t) && OccursAt(s, t.p, i) && !OccursAt(s, t.p, q) && q < i
    ensures !OccursAt(Replaced(s, t.p, t.r, i), t.p, q)
  {
    var s1, j := Replaced(s, t.p, t.r, i), i - q;
    if j + |t.head| < |t.p| {
      HeadsDiffer(s, t, i, q);
    } else if q + |t.p| <= |s1| {
      SameBefore(s, t, i, q);
    }
  }

  /** A pattern from q would have the replacement's head within it. */
  lemma HeadsDiffer(s: string, t: Pattern, i: nat, q: nat)
    requires IsPattern(t) && OccursAt(s, t.p, i) && q < i && i - q + |t.head| < |t.p|
    ensures !OccursAt(Replaced(s, t.p, t.r, i), t.p, q)
  {
    var s1, j := Replaced(s, t.p, t.r, i), i - q;
    assert !OccursAt(t.p, t.head, j);
    var m :| 0 <= m < |t.head| && t.p[j + m] != t.head[m];
    assert s1[i + m] == t.r[m] == t.head[m];
    OneDifference(s1, t.p, q, j + m);
  }

  /** Up to the end of the head the text is as it was. */
  lemma SameBefore(s: string, t: Pattern, i: nat, q: nat)
    requires IsPattern(t) && OccursAt(s, t.p, i) && !OccursAt(s, t.p, q) && q < i && i - q + |t.head| >= |t.p|
    requires q + |t.p| <= |Replaced(s, t.p, t.r, i)|
    ensures !OccursAt(Replaced(s, t.p, t.r, i), t.p, q)
  {
    var s1 := Replaced(s, t.p, t.r, i);
    assert s[i..i + |t.p|] == t.p;
    forall n | q <= n < q + |t.p|
      ensures n < |s| && s1[n] == s[n]
    {
      if n >= i {
        assert s1[n] == t.r[n - i] == t.head[n - i] == t.p[n - i];
        assert s[n] == s[i..i + |t.p|][n - i];
      }
    }
    assert s1[q..q + |t.p|] == s[q..q + |t.p|];
  }

  /** So the loop ends on every text. */
  lemma PatternProgress(t: Pattern)
    requires IsPattern(t)
    ensures Progress(t.p, t.r)
  {
    forall s: string | Find(s, t.p, 0).Some?
      ensures Room(Replaced(s, t.p, t.r, Find(s, t.p, 0).value), t.p) < Room(s, t.p)
    {
      var i := Find(s, t.p, 0).value;
      var s1 := Replaced(s, t.p, t.r, i);
      if Find(s1, t.p, 0).Some? {
        NextIsLater(s, t, i, Find(s1, t.p, 0).value);
      }
    }
  }

  // ---------------------------------------------------------------- the two substitutions

  /** `_GLOBAL_k_`. */
  function Prefix(k: nat): string {
    "_GLOBAL_" + Decimal(k) + "_"
  }

  /** `[k]`. */
  function Index(k: nat): string {
    "[" + Decimal(k) + "]"
  }

  const Mark := "_GLOBAL_0_"
  const StackIndex := "[get_stack_id()]"

  /** Instances of stack 0 become those of stack k. */
  function InstancePattern(k: nat): Pattern {
    Pattern("_GLOBAL_0_", Prefix(k), "GLOBAL_0_", 1, "_G")
  }

  /** The running stack's slots become those of stack k. */
  function SlotPattern(k: nat): Pattern {
    Pattern(StackIndex, Index(k), StackIndex, 0, "[")
  }

  lemma {:induction false} NotAmongDigits(s: string, c: char, i: nat)
    requires AllDigits(s) && !IsDigit(c) && i < |s|
    ensures s[i] != c
  {
    if i > 0 {
      NotAmongDigits(s[1..], c, i - 1);
    }
  }

  lemma PrefixDiffers(k: nat, q: nat)
    requires k > 0 && q < |Prefix(k)|
    ensures Differs(Prefix(k), "GLOBAL_0_", q)
  {
    var r, n := Prefix(k), Decimal(k);
    DecimalDigits(k);
    hide Decimal, AllDigits;
    assert |r| == 9 + |n| && r[8] == n[0] && r[|r| - 1] == '_';
    if q == 1 {
      assert r[q + 7] != "GLOBAL_0_"[7];
    } else {
      if 8 <= q < |r| - 1 {
        NotAmongDigits(n, 'G', q - 8);
        assert r[q] == n[q - 8];
      } else if q < 8 {
        assert r[q] == "_GLOBAL_"[q];
      }
      assert r[q + 0] != "GLOBAL_0_"[0];
    }
  }

  lemma InstancesPattern(k: nat)
    requires k > 0
    ensures IsPattern(InstancePattern(k))
  {
    forall q: nat | q < |Prefix(k)|
      ensures Differs(Prefix(k), "GLOBAL_0_", q)
    {
      PrefixDiffers(k, q);
    }
    assert "_GLOBAL_0_"[1..] == "GLOBAL_0_";
    assert Prefix(k)[..2] == "_G" && "_GLOBAL_0_"[..2] == "_G";
    forall j | 1 <= j < 10
      ensures !OccursAt("_GLOBAL_0_", "_G", j)
    {
      if j < 9 {
        OneDifference("_GLOBAL_0_", "_G", j, 1);
      }
    }
  }

  lemma IndexDiffers(k: nat, q: nat)
    requires q < |Index(k)|
    ensures Differs(Index(k), StackIndex, q)
  {
    var r, n := Index(k), Decimal(k);
    DecimalDigits(k);
    hide Decimal, AllDigits;
    assert |r| == 2 + |n| && r[1] == n[0] && r[|r| - 1] == ']';
    if q == 0 {
      assert r[q + 1] != StackIndex[1];
    } else {
      if q < |r| - 1 {
        NotAmongDigits(n, '[', q - 1);
        assert r[q] == n[q - 1];
      }
      assert r[q + 0] != StackIndex[0];
    }
  }

  lemma SlotsPattern(k: nat)
    ensures IsPattern(SlotPattern(k))
  {
    forall q: nat | q < |Index(k)|
      ensures Differs(Index(k), StackIndex, q)
    {
      IndexDiffers(k, q);
    }
    assert Index(k)[..1] == "[" && StackIndex[..1] == "[" && StackIndex[0..] == StackIndex;
    forall j | 1 <= j < |StackIndex|
      ensures !OccursAt(StackIndex, "[", j)
    {
      OneDifference(StackIndex, "[", j, 0);
    }
  }

  /** Replacing an index, as a whole between brackets, neither makes nor breaks a prefix. */
  lemma PrefixesKept(s: string, k: nat, i: nat)
    requires OccursAt(s, StackIndex, i)
    ensures Occurs(Replaced(s, StackIndex, Index(k), i), Mark) <==> Occurs(s, Mark)
  {
    var a, b := s[..i], s[i + |StackIndex|..];
    assert s[i..i + |StackIndex|] == StackIndex;
    assert s == a + StackIndex + b;
    Bracketed(a, "get_stack_id()", b);
    DecimalDigits(k);
    forall j | 0 <= j < |Decimal(k)|
      ensures Decimal(k)[j] != '_'
    {
      NotAmongDigits(Decimal(k), '_', j);
    }
    NotWithout(Decimal(k), Mark);
    NoPrefixInside();
    Bracketed(a, Decimal(k), b);
    assert StackIndex == "[" + "get_stack_id()" + "]";
  }

  lemma Bracketed(a: string, x: string, b: string)
    ensures Occurs(a + ("[" + x + "]") + b, Mark) <==> Occurs(a, Mark) || Occurs(x, Mark) || Occurs(b, Mark)
  {
    AcrossIff(a, "[", x + ("]" + b), Mark);
    AcrossIff(x, "]", b, Mark);
    assert a + ("[" + x + "]") + b == a + "[" + (x + ("]" + b)) && x + ("]" + b) == x + "]" + b;
  }

  lemma NoPrefixInside()
    ensures !Occurs("get_stack_id()", Mark)
  {
    forall i: nat
      ensures !OccursAt("get_stack_id()", Mark, i)
    {
      if i == 3 || i == 9 {
        OneDifference("get_stack_id()", Mark, i, 1);
      } else {
        OneDifference("get_stack_id()", Mark, i, 0);
      }
    }
  }

  lemma {:induction false} AllPrefixesKept(s: string, k: nat)
    requires Progress(StackIndex, Index(k))
    ensures Occurs(ReplaceAll(s, StackIndex, Index(k)), Mark) <==> Occurs(s, Mark)
    decreases Room(s, StackIndex)
  {
    var r := Find(s, StackIndex, 0);
    if r.Some? {
      PrefixesKept(s, k, r.value);
      AllPrefixesKept(Replaced(s, StackIndex, Index(k), r.value), k);
    }
  }

  // ---------------------------------------------------------------- the copies of an initialiser

  /** Text as it is, an instance of x, and an element of the array a. */
  datatype Piece = Raw(text: string) | Instance(x: string) | Element(a: string)

  function PieceText(p: Piece, prefix: string, index: string): string {
    match p
    case Raw(text) => text
    case Instance(x) => prefix + x + "_I"
    case Element(a) => a + index
  }

  function Render(pieces: seq<Piece>, prefix: string, index: string): string {
    if pieces == [] then "" else PieceText(pieces[0], prefix, index) + Render(pieces[1..], prefix, index)
  }

  /** The text that the walk produces. */
  function Template(pieces: seq<Piece>): string {
    Render(pieces, "_GLOBAL_0_", StackIndex)
  }

  /** The text before the first instance, between instances and after the last. */
  function BetweenInstances(pieces: seq<Piece>, before: string): (cs: seq<string>)
    ensures cs != []
  {
    if pieces == [] then [before]
    else
      match pieces[0]
      case Raw(text) => BetweenInstances(pieces[1..], before + text)
      case Instance(x) => [before] + BetweenInstances(pieces[1..], x + "_I")
      case Element(a) => BetweenInstances(pieces[1..], before + (a + StackIndex))
  }

  function BetweenElements(pieces: seq<Piece>, prefix: string, before: string): (cs: seq<string>)
    ensures cs != []
  {
    if pieces == [] then [before]
    else
      match pieces[0]
      case Raw(text) => BetweenElements(pieces[1..], prefix, before + text)
      case Instance(x) => BetweenElements(pieces[1..], prefix, before + (prefix + x + "_I"))
      case Element(a) => [before + a] + BetweenElements(pieces[1..], prefix, "")
  }

  lemma {:induction false} JoinedOne(c: string, x: string)
    ensures Join([c], x) == c == c + ""
  {
  }

  lemma {:induction false} JoinedFirst(c: string, more: seq<string>, x: string)
    requires more != []
    ensures Join([c] + more, x) == c + x + Join(more, x)
  {
    assert ([c] + more)[1..] == more;
  }

  lemma {:induction false} InstancesJoined(pieces: seq<Piece>, before: string, prefix: string)
    ensures Join(BetweenInstances(pieces, before), prefix) == before + Render(pieces, prefix, StackIndex)
  {
    JoinedOne(before, prefix);
    hide Join;
    if pieces != [] {
      var rest := Render(pieces[1..], prefix, StackIndex);
      match pieces[0]
      case Raw(text) =>
        InstancesJoined(pieces[1..], before + text, prefix);
        assert before + text + rest == before + (text + rest);
      case Instance(x) =>
        InstancesJoined(pieces[1..], x + "_I", prefix);
        JoinedFirst(before, BetweenInstances(pieces[1..], x + "_I"), prefix);
        assert before + prefix + (x + "_I" + rest) == before + (prefix + x + "_I" + rest);
      case Element(a) =>
        InstancesJoined(pieces[1..], before + (a + StackIndex), prefix);
        assert before + (a + StackIndex) + rest == before + (a + StackIndex + rest);
    }
  }

  lemma {:induction false} ElementsJoined(pieces: seq<Piece>, prefix: string, before: string, index: string)
    ensures Join(BetweenElements(pieces, prefix, before), index) == before + Render(pieces, prefix, index)
  {
    JoinedOne(before, index);
    hide Join;
    if pieces != [] {
      var rest := Render(pieces[1..], prefix, index);
      match pieces[0]
      case Raw(text) =>
        ElementsJoined(pieces[1..], prefix, before + text, index);
        assert before + text + rest == before + (text + rest);
      case Instance(x) =>
        ElementsJoined(pieces[1..], prefix, before + (prefix + x + "_I"), index);
        assert before + (prefix + x + "_I") + rest == before + (prefix + x + "_I" + rest);
      case Element(a) =>
        ElementsJoined(pieces[1..], prefix, "", index);
        JoinedFirst(before + a, BetweenElements(pieces[1..], prefix, ""), index);
        assert before + a + index + ("" + rest) == before + (a + index + rest);
    }
  }

  /** The two substitutions for stack k. */
  ghost function Copied(s: string, k: nat): string {
    BothProgress(k);
    ReplaceAll(if k == 0 then s else ReplaceAll(s, Mark, Prefix(k)), StackIndex, Index(k))
  }

  lemma BothProgress(k: nat)
    ensures k > 0 ==> Progress(Mark, Prefix(k))
    ensures Progress(StackIndex, Index(k))
  {
    if k > 0 {
      InstancesPattern(k);
      PatternProgress(InstancePattern(k));
    }
    SlotsPattern(k);
    PatternProgress(SlotPattern(k));
  }

  /** The two substitutions, one after the other. */
  method ReplaceToplevel(init: string, stack: nat) returns (s: string)
    ensures s == Copied(init, stack)
  {
    BothProgress(stack);
    s := init;
    if stack != 0 {
      s := ReplaceLoop(init, Mark, Prefix(stack));
    }
    s := ReplaceLoop(s, StackIndex, Index(stack));
  }

  method ReplaceLoop(init: string, glb: string, rbuf: string) returns (s: string)
    requires Progress(glb, rbuf)
    ensures s == ReplaceAll(init, glb, rbuf)
  {
    s := init;
    while true
      invariant ReplaceAll(s, glb, rbuf) == ReplaceAll(init, glb, rbuf)
      decreases Room(s, glb)
    {
      var loc := Find(s, glb, 0);
      if loc.None? {
        return;
      }
      s := Replaced(s, glb, rbuf, loc.value);
    }
  }

  lemma PrefixOfZero()
    ensures Prefix(0) == "_GLOBAL_0_"
  {
    assert Decimal(0) == "0";
  }

  /**
    Copy k of an initialiser, whatever its text, refers to instances and elements k exactly where the original refers to
    those of stack 0 and of the running stack, if and only if no part of such a copy looks like one of those.
  */
  lemma {:induction false} CopyIsOfStack(pieces: seq<Piece>, k: nat)
    ensures var copy := Render(pieces, Prefix(k), Index(k));
            Copied(Template(pieces), k) == copy <==> !Occurs(copy, StackIndex) && (k > 0 ==> !Occurs(copy, Mark))
  {
    BothProgress(k);
    var template, half, copy := Template(pieces), Render(pieces, Prefix(k), StackIndex), Render(pieces, Prefix(k), Index(k));
    var first := if k == 0 then template else ReplaceAll(template, Mark, Prefix(k));
    if k == 0 {
      PrefixOfZero();
    } else {
      AllReplaced(template, Mark, Prefix(k));
      InstancesReplacedIff(pieces, k);
    }
    hide Render, Template, Progress, ReplaceAll;
    AllReplaced(first, StackIndex, Index(k));
    AllPrefixesKept(first, k);
    AllPrefixesKept(half, k);
    ElementsReplacedIff(pieces, k);
  }

  lemma {:induction false} InstancesReplacedIff(pieces: seq<Piece>, k: nat)
    requires k > 0 && Progress(Mark, Prefix(k))
    ensures ReplaceAll(Template(pieces), Mark, Prefix(k)) == Render(pieces, Prefix(k), StackIndex)
       <==> !Occurs(Render(pieces, Prefix(k), StackIndex), Mark)
  {
    InstancesPattern(k);
    hide IsPattern, Render, Prefix, ReplaceAll, Join;
    InstancesJoined(pieces, "", Mark);
    InstancesJoined(pieces, "", Prefix(k));
    PiecesReplacedIff(BetweenInstances(pieces, ""), InstancePattern(k));
    NothingBefore(Template(pieces), Render(pieces, Prefix(k), StackIndex));
  }

  lemma {:induction false} ElementsReplacedIff(pieces: seq<Piece>, k: nat)
    requires Progress(StackIndex, Index(k))
    ensures ReplaceAll(Render(pieces, Prefix(k), StackIndex), StackIndex, Index(k)) == Render(pieces, Prefix(k), Index(k))
       <==> !Occurs(Render(pieces, Prefix(k), Index(k)), StackIndex)
  {
    SlotsPattern(k);
    hide IsPattern, Render, Prefix, Index, ReplaceAll, Join;
    ElementsJoined(pieces, Prefix(k), "", StackIndex);
    ElementsJoined(pieces, Prefix(k), "", Index(k));
    PiecesReplacedIff(BetweenElements(pieces, Prefix(k), ""), SlotPattern(k));
    NothingBefore(Render(pieces, Prefix(k), StackIndex), Render(pieces, Prefix(k), Index(k)));
  }

  lemma NothingBefore(a: string, b: string)
    ensures "" + a == a && "" + b == b
  {
  }
}
