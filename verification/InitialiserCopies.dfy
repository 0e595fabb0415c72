/**
  The copies of an initialiser as text and as expressions: substituting in the text of a walked initialiser
  (nsc-0.5.3/globaliser/handle_global.cc) gives the text of the expression for that stack.
*/
module InitialiserCopies {
  import opened CLang
  import opened Globaliser
  import opened Decimals
  import opened Wrappers
  import opened Lexical
  import ScopeProof
  import T = InitialiserText
  import N = Names

  // ---------------------------------------------------------------- texts

  /** A family of instances is written only by its members. */
  function Identifier(name: Name): N.Identifier {
    match name
    case Src(x) => N.Source(x)
    case OldArray(x) => N.OldName(x)
    case PtrArray(x, n) => N.ArrayName(x, n)
    case Family(x) => N.Source(x)
  }

  function NameText(name: Name): string {
    N.Text(Identifier(name))
  }

  function RefText(r: Ref): string {
    match r
    case Plain(name) => NameText(name)
    case Slot(name) => NameText(name) + T.StackIndex
    case At(name, j) => NameText(name) + T.Index(j)
    case Via(name) => "(*" + NameText(name) + T.StackIndex + ")"
    case Instance(x, j) => N.Text(N.InstanceName(x, j))
  }

  function NumberText(n: int): string {
    if n < 0 then "-" + Decimal(-n) else Decimal(n)
  }

  function OpText(op: Op): string {
    match op
    case Plus => " + "
    case Minus => " - "
    case Less => " < "
    case Equal => " == "
  }

  function ExprText(e: Expr): string {
    match e
    case Num(n) => NumberText(n)
    case Id(r) => RefText(r)
    case Deref(a) => "*(" + (ExprText(a) + ")")
    case Addr(a) => "&(" + (ExprText(a) + ")")
    case Binary(op, a, b) => "(" + (ExprText(a) + (OpText(op) + (ExprText(b) + ")")))
  }

  /** How references to x are spelt: the slot of the running stack, the slot of stack j, the n-th array, instance j. */
  lemma {:induction false} SpeltOut(x: string, j: nat, n: nat)
    ensures RefText(Plain(Src(x))) == x
    ensures RefText(Slot(OldArray(x))) == "global_" + x + "[get_stack_id()]"
    ensures RefText(At(OldArray(x), j)) == "global_" + x + "[" + Decimal(j) + "]"
    ensures RefText(Via(PtrArray(x, n))) == "(*_GLOBAL_" + x + "_" + Decimal(n) + "_A[get_stack_id()])"
    ensures RefText(Instance(x, j)) == "_GLOBAL_" + Decimal(j) + "_" + x + "_I"
  {
    hide Decimal;
    assert T.Index(j) == "[" + Decimal(j) + "]";
    PointerText(x, Decimal(n));
  }

  lemma {:induction false} PointerText(x: string, d: string)
    ensures "(*" + ("_GLOBAL_" + x + "_" + d + "_A") + "[get_stack_id()]" + ")" == "(*_GLOBAL_" + x + "_" + d + "_A[get_stack_id()])"
  {
    var head, tail := x + "_" + d, "[get_stack_id()]";
    assert "_GLOBAL_" + x + "_" + d + "_A" == "_GLOBAL_" + (head + "_A");
    assert "(*_GLOBAL_" + x + "_" + d + "_A[get_stack_id()])" == "(*_GLOBAL_" + (head + "_A[get_stack_id()])");
    assert "(*" + ("_GLOBAL_" + (head + "_A")) == "(*_GLOBAL_" + (head + "_A");
    assert "_A" + tail + ")" == "_A[get_stack_id()])";
  }

  /** And expressions. */
  lemma {:induction false} SpeltExpressions(a: Expr, b: Expr)
    ensures ExprText(Num(5)) == "5" && ExprText(Num(0)) == "0" && ExprText(Num(-1)) == "-1"
    ensures ExprText(Deref(a)) == "*(" + ExprText(a) + ")" && ExprText(Addr(a)) == "&(" + ExprText(a) + ")"
    ensures ExprText(Binary(Plus, a, b)) == "(" + ExprText(a) + " + " + ExprText(b) + ")"
    ensures ExprText(Binary(Minus, a, b)) == "(" + ExprText(a) + " - " + ExprText(b) + ")"
    ensures ExprText(Binary(Less, a, b)) == "(" + ExprText(a) + " < " + ExprText(b) + ")"
    ensures ExprText(Binary(Equal, a, b)) == "(" + ExprText(a) + " == " + ExprText(b) + ")"
  {
    assert Decimal(5) == "5" && Decimal(0) == "0" && Decimal(1) == "1";
    hide Decimal;
    var x, y := ExprText(a), ExprText(b);
    Parenthesised(x, " + ", y);
    Parenthesised(x, " - ", y);
    Parenthesised(x, " < ", y);
    Parenthesised(x, " == ", y);
    assert ExprText(Binary(Plus, a, b)) == "(" + (x + (" + " + (y + ")")));
    assert ExprText(Binary(Minus, a, b)) == "(" + (x + (" - " + (y + ")")));
    assert ExprText(Binary(Less, a, b)) == "(" + (x + (" < " + (y + ")")));
    assert ExprText(Binary(Equal, a, b)) == "(" + (x + (" == " + (y + ")")));
  }

  lemma {:induction false} Parenthesised(a: string, op: string, b: string)
    ensures "(" + (a + (op + (b + ")"))) == "(" + a + op + b + ")"
  {
  }

  /** Identifiers of the model that are written alike are the same. */
  lemma NamesDiffer(a: Name, b: Name)
    requires !a.Family? && !b.Family? && NameText(a) == NameText(b)
    requires (a.Src? ==> N.IsOrdinary(a.x)) && (b.Src? ==> N.IsOrdinary(b.x))
    ensures a == b
  {
    N.TextsAreDistinct(Identifier(a), Identifier(b));
  }

  // ---------------------------------------------------------------- pieces

  /** A walked initialiser by its pieces: the slots and the instances of stack 0, and what is between them. */
  function PiecesOf(e: Expr): seq<T.Piece> {
    match e
    case Num(n) => [T.Raw(NumberText(n))]
    case Id(Slot(name)) => [T.Element(NameText(name))]
    case Id(Instance(x, 0)) => [T.Piece.Instance(x)]
    case Id(r) => [T.Raw(RefText(r))]
    case Deref(a) => [T.Raw("*(")] + (PiecesOf(a) + [T.Raw(")")])
    case Addr(a) => [T.Raw("&(")] + (PiecesOf(a) + [T.Raw(")")])
    case Binary(op, a, b) => [T.Raw("(")] + (PiecesOf(a) + ([T.Raw(OpText(op))] + (PiecesOf(b) + [T.Raw(")")])))
  }

  lemma {:induction false} RenderBoth(a: seq<T.Piece>, b: seq<T.Piece>, prefix: string, index: string)
    ensures T.Render(a + b, prefix, index) == T.Render(a, prefix, index) + T.Render(b, prefix, index)
    decreases a
  {
    if a == [] {
      assert a + b == b;
    } else {
      assert (a + b)[1..] == a[1..] + b;
      RenderBoth(a[1..], b, prefix, index);
      Grouped(a[0], T.Render(a[1..], prefix, index), T.Render(b, prefix, index), prefix, index);
    }
  }

  lemma Grouped(p: T.Piece, s: string, t: string, prefix: string, index: string)
    ensures T.PieceText(p, prefix, index) + s + t == T.PieceText(p, prefix, index) + (s + t)
  {
  }

  lemma {:induction false} RawFirst(text: string, rest: seq<T.Piece>, prefix: string, index: string)
    ensures T.Render([T.Raw(text)] + rest, prefix, index) == text + T.Render(rest, prefix, index)
  {
    assert ([T.Raw(text)] + rest)[1..] == rest;
  }

  /** With the prefix and the index of a stack the pieces are the text of the expression for that stack. */
  lemma {:induction false} PiecesRendered(e: Expr, k: nat)
    ensures T.Render(PiecesOf(e), T.Prefix(k), T.Index(k)) == ExprText(Instantiate(e, k))
  {
    var prefix, index := T.Prefix(k), T.Index(k);
    match e
    case Num(_) => Alone(PiecesOf(e)[0], prefix, index);
    case Id(_) => Alone(PiecesOf(e)[0], prefix, index);
    case Deref(a) =>
      PiecesRendered(a, k);
      Enclosed("*(", PiecesOf(a), prefix, index);
    case Addr(a) =>
      PiecesRendered(a, k);
      Enclosed("&(", PiecesOf(a), prefix, index);
    case Binary(op, a, b) =>
      PiecesRendered(a, k);
      PiecesRendered(b, k);
      Joined(PiecesOf(a), OpText(op), PiecesOf(b), prefix, index);
  }

  /** With those of stack 0 and of the running stack they are the text that was walked. */
  lemma {:induction false} PiecesWalked(e: Expr)
    ensures T.Template(PiecesOf(e)) == ExprText(e)
  {
    T.PrefixOfZero();
    var prefix, index := T.Prefix(0), T.StackIndex;
    match e
    case Num(_) => Alone(PiecesOf(e)[0], prefix, index);
    case Id(_) => Alone(PiecesOf(e)[0], prefix, index);
    case Deref(a) =>
      PiecesWalked(a);
      Enclosed("*(", PiecesOf(a), prefix, index);
    case Addr(a) =>
      PiecesWalked(a);
      Enclosed("&(", PiecesOf(a), prefix, index);
    case Binary(op, a, b) =>
      PiecesWalked(a);
      PiecesWalked(b);
      Joined(PiecesOf(a), OpText(op), PiecesOf(b), prefix, index);
  }

  lemma {:induction false} Alone(p: T.Piece, prefix: string, index: string)
    ensures T.Render([p], prefix, index) == T.PieceText(p, prefix, index)
  {
    assert [p][1..] == [];
    assert T.PieceText(p, prefix, index) + "" == T.PieceText(p, prefix, index);
  }

  lemma {:induction false} Enclosed(text: string, pieces: seq<T.Piece>, prefix: string, index: string)
    ensures T.Render([T.Raw(text)] + (pieces + [T.Raw(")")]), prefix, index)
         == text + (T.Render(pieces, prefix, index) + ")")
  {
    RawFirst(text, pieces + [T.Raw(")")], prefix, index);
    RenderBoth(pieces, [T.Raw(")")], prefix, index);
    Alone(T.Raw(")"), prefix, index);
  }

  lemma {:induction false} Joined(a: seq<T.Piece>, op: string, b: seq<T.Piece>, prefix: string, index: string)
    ensures T.Render([T.Raw("(")] + (a + ([T.Raw(op)] + (b + [T.Raw(")")]))), prefix, index)
         == "(" + (T.Render(a, prefix, index) + (op + (T.Render(b, prefix, index) + ")")))
  {
    RawFirst("(", a + ([T.Raw(op)] + (b + [T.Raw(")")])), prefix, index);
    RenderBoth(a, [T.Raw(op)] + (b + [T.Raw(")")]), prefix, index);
    Enclosed(op, b, prefix, index);
  }

  // ---------------------------------------------------------------- names that get in the way

  predicate IsIdentifierChar(c: char) {
    'a' <= c <= 'z' || 'A' <= c <= 'Z' || IsDigit(c) || c == '_'
  }

  predicate IsIdentifier(x: string) {
    x != "" && forall i :: 0 <= i < |x| ==> IsIdentifierChar(x[i])
  }

  /** Letters, digits and underscores, at least one. */
  lemma {:induction false} IdentifierIff(x: string)
    ensures IsIdentifier(x)
       <==> x != "" && forall c :: c in x ==> 'a' <= c <= 'z' || 'A' <= c <= 'Z' || '0' <= c <= '9' || c == '_'
  {
    if IsIdentifier(x) {
      forall c | c in x
        ensures IsIdentifierChar(c)
      {
        var i :| 0 <= i < |x| && x[i] == c;
      }
    } else if x != "" {
      var i :| 0 <= i < |x| && !IsIdentifierChar(x[i]);
      assert x[i] in x;
    }
  }

  /** A walked initialiser: what stays as it is, the instances of stack 0 and the running stack's slots. */
  predicate IsWalked(e: Expr) {
    match e
    case Num(_) => true
    case Id(Plain(Src(x))) => IsIdentifier(x)
    case Id(Slot(OldArray(x))) => IsIdentifier(x)
    case Id(Instance(x, 0)) => IsIdentifier(x)
    case Id(_) => false
    case Deref(a) => IsWalked(a)
    case Addr(a) => IsWalked(a)
    case Binary(_, a, b) => IsWalked(a) && IsWalked(b)
  }

  /**
    A reference that has `_GLOBAL_0_` in it other than as the prefix of an instance: it is part of the name, or makes one
    with what is put before or after the name.
  */
  ghost predicate ConfusingRef(r: Ref) {
    match r
    case Plain(Src(x)) => T.Occurs(x, T.Mark)
    case Slot(OldArray(x)) => T.Occurs("global_" + x, T.Mark)
    case Instance(x, _) => T.Occurs("_" + x + "_I", T.Mark)
    case _ => false
  }

  ghost predicate Confusing(e: Expr) {
    match e
    case Num(_) => false
    case Id(r) => ConfusingRef(r)
    case Deref(a) => Confusing(a)
    case Addr(a) => Confusing(a)
    case Binary(_, a, b) => Confusing(a) || Confusing(b)
  }

  lemma DecimalHas(n: int, c: char)
    requires !IsDigit(c) && c != '-'
    ensures c !in NumberText(n)
  {
    var s := Decimal(if n < 0 then -n else n);
    DecimalDigits(if n < 0 then -n else n);
    forall i | 0 <= i < |s|
      ensures s[i] != c
    {
      T.NotAmongDigits(s, c, i);
    }
  }

  /** Separators have nothing of the pattern. */
  lemma EnclosedIff(text: string, a: string, m: string)
    requires m != "" && text != "" && (forall c :: c in text ==> c !in m) && ')' !in m
    ensures T.Occurs(text + (a + ")"), m) <==> T.Occurs(a, m)
  {
    T.AcrossIff("", text, a + ")", m);
    T.AcrossIff(a, ")", "", m);
    T.NotWithout("", m);
    assert "" + text + (a + ")") == text + (a + ")") && a + ")" + "" == a + ")";
  }

  lemma JoinedIff(a: string, op: string, b: string, m: string)
    requires m != "" && op != "" && (forall c :: c in op ==> c !in m) && '(' !in m && ')' !in m
    ensures T.Occurs("(" + (a + (op + (b + ")"))), m) <==> T.Occurs(a, m) || T.Occurs(b, m)
  {
    var rest := a + (op + (b + ")"));
    T.AcrossIff("", "(", rest, m);
    T.AcrossIff(a, op, b + ")", m);
    T.AcrossIff(b, ")", "", m);
    T.NotWithout("", m);
    assert "" + "(" + rest == "(" + rest && rest == a + op + (b + ")") && b + ")" + "" == b + ")";
  }

  /** For another stack, the prefix takes part only with its last character. */
  lemma PrefixIff(rest: string, k: nat)
    requires k > 0
    ensures T.Occurs(T.Prefix(k) + rest, T.Mark) <==> T.Occurs("_" + rest, T.Mark)
  {
    var prefix := T.Prefix(k);
    var s, t, n := prefix + rest, "_" + rest, |prefix| - 1;
    assert prefix[n] == '_';
    assert s[n..] == t;
    hide T.Prefix;
    if i: nat :| T.OccursAt(t, T.Mark, i) {
      assert s[n + i..n + i + 10] == s[n..][i..i + 10];
      assert T.OccursAt(s, T.Mark, n + i);
    }
    if i: nat :| T.OccursAt(s, T.Mark, i) {
      if i < n {
        MarkNotInPrefix(rest, k, i);
      } else {
        assert s[i..i + 10] == s[n..][i - n..i - n + 10];
        assert T.OccursAt(t, T.Mark, i - n);
      }
    }
  }

  lemma InstanceIff(x: string, k: nat)
    requires k > 0
    ensures T.Occurs(T.Prefix(k) + x + "_I", T.Mark) <==> T.Occurs("_" + x + "_I", T.Mark)
  {
    PrefixIff(x + "_I", k);
    assert T.Prefix(k) + (x + "_I") == T.Prefix(k) + x + "_I" && "_" + (x + "_I") == "_" + x + "_I";
  }

  lemma MarkNotInPrefix(rest: string, k: nat, i: nat)
    requires k > 0 && i < |T.Prefix(k)| - 1
    ensures !T.OccursAt(T.Prefix(k) + rest, T.Mark, i)
  {
    var p, d := T.Prefix(k), "GLOBAL_0_";
    T.PrefixDiffers(k, i + 1);
    var m :| 0 <= m < |d| && i + 1 + m < |p| && p[i + 1 + m] != d[m];
    assert T.Mark[1 + m] == d[m];
    T.OneDifference(p + rest, T.Mark, i, 1 + m);
  }

  lemma SlotIff(x: string, k: nat)
    ensures T.Occurs("global_" + x + T.Index(k), T.Mark) <==> T.Occurs("global_" + x, T.Mark)
  {
    var a, n := "global_" + x, Decimal(k);
    T.Bracketed(a, n, "");
    DecimalHas(k, '_');
    T.NotWithout(n, T.Mark);
    T.NotWithout("", T.Mark);
    assert a + ("[" + n + "]") + "" == a + T.Index(k);
  }

  /** The copy for another stack has a prefix of stack 0 in it exactly if it has a confusing reference. */
  lemma {:induction false} MarkIff(e: Expr, k: nat)
    requires IsWalked(e) && k > 0
    ensures T.Occurs(ExprText(Instantiate(e, k)), T.Mark) <==> Confusing(e)
  {
    match e
    case Num(n) =>
      DecimalHas(n, '_');
      T.NotWithout(NumberText(n), T.Mark);
    case Id(r) => RefIff(r, k);
    case Deref(a) =>
      MarkIff(a, k);
      EnclosedIff("*(", ExprText(Instantiate(a, k)), T.Mark);
    case Addr(a) =>
      MarkIff(a, k);
      EnclosedIff("&(", ExprText(Instantiate(a, k)), T.Mark);
    case Binary(op, a, b) =>
      MarkIff(a, k);
      MarkIff(b, k);
      JoinedIff(ExprText(Instantiate(a, k)), OpText(op), ExprText(Instantiate(b, k)), T.Mark);
  }

  lemma {:induction false} RefIff(r: Ref, k: nat)
    requires IsWalked(Id(r)) && k > 0
    ensures T.Occurs(ExprText(Instantiate(Id(r), k)), T.Mark) <==> ConfusingRef(r)
  {
    match r
    case Plain(_) =>
    case Slot(name) => SlotIff(name.x, k);
    case Instance(x, _) => InstanceIff(x, k);
  }

  // ---------------------------------------------------------------- nothing is taken for an index

  const Opening := "[g"

  lemma IdentifierHas(x: string, c: char)
    requires IsIdentifier(x) && !IsIdentifierChar(c)
    ensures c !in x
  {
  }

  lemma IndexOpening(a: string, k: nat)
    requires '[' !in a
    ensures !T.Occurs(a + T.Index(k), Opening)
  {
    var s, n := a + T.Index(k), Decimal(k);
    DecimalHas(k, '[');
    forall i: nat
      ensures !T.OccursAt(s, Opening, i)
    {
      if i == |a| {
        assert s[i + 1] == n[0];
        T.OneDifference(s, Opening, i, 1);
      } else {
        assert i < |a| ==> s[i] == a[i];
        assert |a| < i < |s| - 1 ==> s[i] == n[i - |a| - 1];
        T.OneDifference(s, Opening, i, 0);
      }
    }
  }

  lemma {:induction false} NoOpening(e: Expr, k: nat)
    requires IsWalked(e)
    ensures !T.Occurs(ExprText(Instantiate(e, k)), Opening)
  {
    match e
    case Num(n) =>
      DecimalHas(n, '[');
      T.NotWithout(NumberText(n), Opening);
    case Id(r) => RefOpening(r, k);
    case Deref(a) =>
      NoOpening(a, k);
      EnclosedIff("*(", ExprText(Instantiate(a, k)), Opening);
    case Addr(a) =>
      NoOpening(a, k);
      EnclosedIff("&(", ExprText(Instantiate(a, k)), Opening);
    case Binary(op, a, b) =>
      NoOpening(a, k);
      NoOpening(b, k);
      JoinedIff(ExprText(Instantiate(a, k)), OpText(op), ExprText(Instantiate(b, k)), Opening);
  }

  lemma {:induction false} RefOpening(r: Ref, k: nat)
    requires IsWalked(Id(r))
    ensures !T.Occurs(ExprText(Instantiate(Id(r), k)), Opening)
  {
    match r
    case Plain(name) =>
      IdentifierHas(name.x, '[');
      T.NotWithout(name.x, Opening);
    case Slot(name) =>
      IdentifierHas(name.x, '[');
      IndexOpening("global_" + name.x, k);
    case Instance(x, _) =>
      IdentifierHas(x, '[');
      DecimalHas(k, '[');
      T.NotWithout(T.Prefix(k) + x + "_I", Opening);
  }

  lemma OpensIndex(s: string)
    requires !T.Occurs(s, Opening)
    ensures !T.Occurs(s, T.StackIndex)
  {
    forall i: nat
      ensures !T.OccursAt(s, T.StackIndex, i)
    {
      if T.OccursAt(s, T.StackIndex, i) {
        assert s[i..i + 2] == s[i..i + |T.StackIndex|][..2] == Opening;
        assert T.OccursAt(s, Opening, i);
      }
    }
  }

  // ---------------------------------------------------------------- the copies

  /**
    The two substitutions turn the text of a walked initialiser into the text of the expression that stack k's object is
    given, if and only if k is 0 or none of the names in it is confusing.
  */
  lemma {:induction false} CopiedIff(walked: Expr, k: nat)
    requires IsWalked(walked)
    ensures T.Copied(ExprText(walked), k) == ExprText(Instantiate(walked, k)) <==> k == 0 || !Confusing(walked)
  {
    PiecesWalked(walked);
    PiecesRendered(walked, k);
    NoOpening(walked, k);
    OpensIndex(ExprText(Instantiate(walked, k)));
    if k > 0 {
      MarkIff(walked, k);
    }
    hide *;
    T.CopyIsOfStack(PiecesOf(walked), k);
  }

  method CopyText(walked: Expr, k: nat) returns (s: string)
    requires IsWalked(walked)
    ensures s == T.Copied(ExprText(walked), k)
    ensures s == ExprText(Instantiate(walked, k)) <==> k == 0 || !Confusing(walked)
  {
    CopiedIff(walked, k);
    s := T.ReplaceToplevel(ExprText(walked), k);
  }

  // ---------------------------------------------------------------- from the source

  ghost predicate NameConfuses(x: string, scope: Scope) {
    if x in scope && scope[x].Bound? then
      T.Occurs(if scope[x].form.Old? then "global_" + x else "_" + x + "_I", T.Mark)
    else T.Occurs(x, T.Mark)
  }

  ghost predicate AllKnown(t: Tables, cmds: Commands, xs: set<string>, scope: Scope) {
    forall x :: x in xs ==> x in scope && ScopeProof.Knows(t, cmds, x, scope[x]) && IsIdentifier(x)
  }

  lemma {:induction false} WalkedIs(t: Tables, cmds: Commands, e: Expr, scope: Scope, names: set<string>)
    requires Uses(e, names) && AllKnown(t, cmds, NamesOf(e), scope)
    ensures IsWalked(HgrExpr(t, cmds, e, true))
    ensures Confusing(HgrExpr(t, cmds, e, true)) <==> exists x :: x in NamesOf(e) && NameConfuses(x, scope)
  {
    match e
    case Num(_) =>
    case Id(r) =>
      assert NamesOf(e) == {r.name.x};
      WalkedLeaf(t, cmds, r.name.x, scope);
    case Deref(a) => WalkedIs(t, cmds, a, scope, names);
    case Addr(a) => WalkedIs(t, cmds, a, scope, names);
    case Binary(_, a, b) =>
      WalkedIs(t, cmds, a, scope, names);
      WalkedIs(t, cmds, b, scope, names);
      assert NamesOf(e) == NamesOf(a) + NamesOf(b);
  }

  lemma WalkedLeaf(t: Tables, cmds: Commands, x: string, scope: Scope)
    requires x in scope && ScopeProof.Knows(t, cmds, x, scope[x]) && IsIdentifier(x)
    ensures IsWalked(Id(LeafRef(t, cmds, x, true)))
    ensures ConfusingRef(LeafRef(t, cmds, x, true)) <==> NameConfuses(x, scope)
  {
    ScopeProof.LeafAgrees(t, cmds, scope, x, 0);
  }

  /**
    In a scope that the walk knows, copy k of an initialiser is the text of what C's scoping makes of it for stack k, if
    and only if k is 0 or no name in it is confusing.
  */
  lemma {:induction false} SourceCopiedIff(t: Tables, cmds: Commands, e: Expr, scope: Scope, names: set<string>, k: nat)
    requires Uses(e, names) && AllKnown(t, cmds, NamesOf(e), scope)
    ensures T.Copied(ExprText(HgrExpr(t, cmds, e, true)), k) == ExprText(ResolveInit(e, scope, k))
       <==> k == 0 || forall x :: x in NamesOf(e) ==> !NameConfuses(x, scope)
  {
    WalkedIs(t, cmds, e, scope, names);
    ScopeProof.InitAgrees(t, cmds, e, scope, names, k);
    CopiedIff(HgrExpr(t, cmds, e, true), k);
  }

  // ---------------------------------------------------------------- an ordinary name that gets in the way

  /** An identifier that makes the prefix of an instance with what is put before it. */
  function Misleading(z: string): string {
    "GLOBAL_0_" + z
  }

  /** `global` and the prefix of the instances of stack k, and the rest of the name: no such array is declared. */
  function Misnamed(z: string, k: nat): string {
    "global" + T.Prefix(k) + z
  }

  lemma {:induction false} TwoJoined(a: string, b: string, x: string)
    ensures T.Join([a, b], x) == a + x + b
  {
    assert [a, b][1..] == [b];
  }

  lemma {:induction false} FirstSubstitution(z: string, k: nat)
    requires k > 0 && !T.Occurs("_" + z, T.Mark)
    ensures T.Progress(T.Mark, T.Prefix(k))
    ensures T.ReplaceAll("global" + T.Mark + (z + T.StackIndex), T.Mark, T.Prefix(k)) == Misnamed(z, k) + T.StackIndex
  {
    T.BothProgress(k);
    T.InstancesPattern(k);
    var tail := z + T.StackIndex;
    var want := "global" + T.Prefix(k) + tail;
    assert want == "" + "global" + (T.Prefix(k) + tail) && want == Misnamed(z, k) + T.StackIndex;
    T.AcrossIff("", "global", T.Prefix(k) + tail, T.Mark);
    T.NotWithout("", T.Mark);
    PrefixIff(tail, k);
    T.Bracketed("_" + z, "get_stack_id()", "");
    T.NoPrefixInside();
    assert ("_" + z) + ("[" + "get_stack_id()" + "]") + "" == "_" + tail;
    hide T.ReplaceAll, T.Progress, T.IsPattern, T.Join, T.Occurs, T.Prefix;
    TwoJoined("global", tail, T.Mark);
    TwoJoined("global", tail, T.Prefix(k));
    T.PiecesReplacedIff(["global", tail], T.InstancePattern(k));
  }

  lemma {:induction false} SecondSubstitution(name: string, k: nat)
    requires '[' !in name
    ensures T.Progress(T.StackIndex, T.Index(k))
    ensures T.ReplaceAll(name + T.StackIndex, T.StackIndex, T.Index(k)) == name + T.Index(k)
  {
    T.BothProgress(k);
    T.SlotsPattern(k);
    IndexOpening(name, k);
    OpensIndex(name + T.Index(k));
    assert name + T.StackIndex + "" == name + T.StackIndex && name + T.Index(k) + "" == name + T.Index(k);
    hide T.ReplaceAll, T.Progress, T.IsPattern, T.Join, T.Occurs, T.Index;
    TwoJoined(name, "", T.StackIndex);
    TwoJoined(name, "", T.Index(k));
    T.PiecesReplacedIff([name, ""], T.SlotPattern(k));
  }

  lemma MisleadingIsOrdinary(z: string)
    requires IsIdentifier(z)
    ensures N.IsOrdinary(Misleading(z)) && IsIdentifier(Misleading(z))
  {
    var x := Misleading(z);
    assert x[0] == 'G';
    forall i | 0 <= i < |x|
      ensures IsIdentifierChar(x[i])
    {
      if i >= 9 {
        assert x[i] == z[i - 9];
      }
    }
  }

  lemma MisleadingText(z: string)
    ensures RefText(Slot(OldArray(Misleading(z)))) == "global" + T.Mark + (z + T.StackIndex)
    ensures ConfusingRef(Slot(OldArray(Misleading(z))))
  {
    var name := "global_" + Misleading(z);
    assert name == "global" + T.Mark + z;
    assert name[6..16] == T.Mark;
    assert T.OccursAt(name, T.Mark, 6);
    assert name + T.StackIndex == "global" + T.Mark + (z + T.StackIndex);
  }

  lemma MisnamedHas(z: string, k: nat)
    requires IsIdentifier(z)
    ensures '[' !in Misnamed(z, k)
  {
    IdentifierHas(z, '[');
    DecimalHas(k, '[');
  }

  /** A name that begins like this is an ordinary one, and copy k of its address is that of another array. */
  lemma MisleadingMisnamed(z: string, k: nat)
    requires IsIdentifier(z) && k > 0 && !T.Occurs("_" + z, T.Mark)
    ensures N.IsOrdinary(Misleading(z)) && IsIdentifier(Misleading(z))
    ensures T.Copied(RefText(Slot(OldArray(Misleading(z)))), k) == Misnamed(z, k) + T.Index(k)
    ensures T.Copied(RefText(Slot(OldArray(Misleading(z)))), k) != RefText(At(OldArray(Misleading(z)), k))
  {
    MisleadingIsOrdinary(z);
    MisleadingText(z);
    CopiedIff(Id(Slot(OldArray(Misleading(z)))), k);
    FirstSubstitution(z, k);
    MisnamedHas(z, k);
    hide RefText, Misleading, Misnamed, IsIdentifier, ConfusingRef, T.ReplaceAll, T.Progress, T.Prefix, T.Index, T.Occurs;
    hide N.IsOrdinary;
    SecondSubstitution(Misnamed(z, k), k);
  }

  /** `GLOBAL_0_z`: copy 1 says `global_GLOBAL_1_z[1]` for `global_GLOBAL_0_z[1]`. */
  lemma OrdinaryNameChanged()
    ensures Misleading("z") == "GLOBAL_0_z" && N.IsOrdinary("GLOBAL_0_z")
    ensures T.Copied(RefText(Slot(OldArray("GLOBAL_0_z"))), 1) == Misnamed("z", 1) + T.Index(1)
         != RefText(At(OldArray("GLOBAL_0_z"), 1))
  {
    assert |"_" + "z"| < |T.Mark|;
    assert !T.Occurs("_" + "z", T.Mark);
    assert Misleading("z") == "GLOBAL_0_z";
    MisleadingMisnamed("z", 1);
  }
}
