/** The identifiers that the globaliser makes up (nsc-0.5.3/globaliser/handle_global.cc) never clash. */
module Names {
  import opened Decimals
  import opened InitialiserText

  /** A source identifier, an array with a slot per stack, the instance of stack j, the n-th pointer array. */
  datatype Identifier = Source(x: string) | OldName(x: string) | InstanceName(x: string, j: nat)
                      | ArrayName(x: string, n: nat)

  function Text(i: Identifier): string {
    match i
    case Source(x) => x
    case OldName(x) => "global_" + x
    case InstanceName(x, j) => Prefix(j) + x + "_I"
    case ArrayName(x, n) => "_GLOBAL_" + x + "_" + Decimal(n) + "_A"
  }

  /** The assumption on source programs. */
  predicate IsOrdinary(x: string) {
    !("global_" <= x) && !("_GLOBAL_" <= x)
  }

  function RunLength(s: string): nat {
    if s == "" || !IsDigit(s[0]) then 0 else 1 + RunLength(s[1..])
  }

  lemma {:induction false} RunLengthOf(a: string, s: string)
    requires AllDigits(a) && (s == "" || !IsDigit(s[0]))
    ensures RunLength(a + s) == |a|
  {
    if a == "" {
      assert a + s == s;
    } else {
      assert (a + s)[1..] == a[1..] + s;
      RunLengthOf(a[1..], s);
    }
  }

  lemma {:induction false} SameRun(a: string, b: string, s: string, t: string)
    requires AllDigits(a) && AllDigits(b) && a + s == b + t
    requires (s == "" || !IsDigit(s[0])) && (t == "" || !IsDigit(t[0]))
    ensures a == b && s == t
  {
    RunLengthOf(a, s);
    RunLengthOf(b, t);
    assert a == (a + s)[..|a|] && b == (b + t)[..|b|] && s == (a + s)[|a|..] && t == (b + t)[|b|..];
  }

  lemma {:induction false} SameDecimal(m: nat, n: nat)
    requires Decimal(m) == Decimal(n)
    ensures m == n
  {
    NumeralOfDecimal(m);
    NumeralOfDecimal(n);
  }

  lemma SameTail(s: string, t: string, u: string)
    requires s + u == t + u
    ensures s == t
  {
    assert s == (s + u)[..|s + u| - |u|] && t == (t + u)[..|t + u| - |u|];
  }

  lemma SameHead(s: string, t: string, u: string)
    requires u + s == u + t
    ensures s == t
  {
    assert s == (u + s)[|u|..] && t == (u + t)[|u|..];
  }

  lemma InstancesDiffer(x: string, j: nat, y: string, k: nat)
    requires Text(InstanceName(x, j)) == Text(InstanceName(y, k))
    ensures x == y && j == k
  {
    DecimalDigits(j);
    DecimalDigits(k);
    hide Decimal;
    SameTail(Prefix(j) + x, Prefix(k) + y, "_I");
    assert Prefix(j) + x == "_GLOBAL_" + (Decimal(j) + ("_" + x));
    assert Prefix(k) + y == "_GLOBAL_" + (Decimal(k) + ("_" + y));
    SameHead(Decimal(j) + ("_" + x), Decimal(k) + ("_" + y), "_GLOBAL_");
    SameRun(Decimal(j), Decimal(k), "_" + x, "_" + y);
    SameHead(x, y, "_");
    SameDecimal(j, k);
  }

  /** The digits at the end of a text. */
  lemma {:induction false} SameEnd(a: string, b: string, s: string, t: string)
    requires AllDigits(a) && AllDigits(b) && s + "_" + a == t + "_" + b
    ensures a == b && s == t
    decreases |a|
  {
    var u := s + "_" + a;
    if |a| < |b| {
      assert u[|s|] == '_' && u[|s|] == b[|s| - |t| - 1];
      NotAmongDigits(b, '_', |s| - |t| - 1);
    } else if |b| < |a| {
      assert u[|t|] == '_' && u[|t|] == a[|t| - |s| - 1];
      NotAmongDigits(a, '_', |t| - |s| - 1);
    }
    assert s == u[..|s|] && t == u[..|t|] && a == u[|s| + 1..] && b == u[|t| + 1..];
  }

  lemma ArraysDiffer(x: string, m: nat, y: string, n: nat)
    requires Text(ArrayName(x, m)) == Text(ArrayName(y, n))
    ensures x == y && m == n
  {
    DecimalDigits(m);
    DecimalDigits(n);
    hide Decimal;
    SameTail("_GLOBAL_" + x + "_" + Decimal(m), "_GLOBAL_" + y + "_" + Decimal(n), "_A");
    SameEnd(Decimal(m), Decimal(n), "_GLOBAL_" + x, "_GLOBAL_" + y);
    SameHead(x, y, "_GLOBAL_");
    SameDecimal(m, n);
  }

  lemma Marks(i: Identifier)
    requires i.Source? ==> IsOrdinary(i.x)
    ensures i.OldName? <==> "global_" <= Text(i)
    ensures i.InstanceName? || i.ArrayName? <==> "_GLOBAL_" <= Text(i)
    ensures i.InstanceName? ==> Text(i)[|Text(i)| - 1] == 'I'
    ensures i.ArrayName? ==> Text(i)[|Text(i)| - 1] == 'A'
  {
    hide Decimal;
    match i
    case Source(_) =>
    case OldName(_) => assert Text(i)[0] == 'g';
    case InstanceName(x, j) =>
      assert Text(i)[0] == '_' && Text(i)[..8] == "_GLOBAL_";
    case ArrayName(x, n) =>
      assert Text(i)[0] == '_' && Text(i)[..8] == "_GLOBAL_";
  }

  /** Distinct identifiers have distinct texts, so long as no source identifier begins like a made-up one. */
  lemma TextsAreDistinct(a: Identifier, b: Identifier)
    requires (a.Source? ==> IsOrdinary(a.x)) && (b.Source? ==> IsOrdinary(b.x))
    requires Text(a) == Text(b)
    ensures a == b
  {
    Marks(a);
    Marks(b);
    match a
    case Source(_) =>
    case OldName(x) => SameHead(x, b.x, "global_");
    case InstanceName(x, j) => InstancesDiffer(x, j, b.x, b.j);
    case ArrayName(x, n) => ArraysDiffer(x, n, b.x, b.n);
  }
}
