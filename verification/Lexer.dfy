/**
  The layer between the scanner and the parser (nsc-0.5.3/globaliser/ilex.cc): it holds every token back by one, so that
  the whitespace and the attributes after a token can go with it.
*/
module Lexer {
  import opened Wrappers

  datatype Kind = White | Attribute | Identifier | TypedefName | Char(c: char) | Other(n: int) | Eof

  /** A token of the scanner, with its text. */
  datatype Raw = Raw(kind: Kind, text: string)

  predicate InGap(t: Raw) {
    t.kind.White? || t.kind.Attribute?
  }

  // ---------------------------------------------------------------- scanning a gap

  /** The rest of an attribute whose parentheses are depth deep: its text and what comes after it. */
  function ScanBody(s: seq<Raw>, depth: nat): Option<(string, seq<Raw>)> {
    if depth == 0 then Some(("", s))
    else if s == [] then None
    else
      var depth1 := if s[0].kind == Char('(') then depth + 1 else if s[0].kind == Char(')') then depth - 1 else depth;
      match ScanBody(s[1..], depth1)
      case None => None
      case Some((text, rest)) => Some((s[0].text + text, rest))
  }

  /** An attribute after its first token. */
  function ScanAttribute(s: seq<Raw>): Option<(string, seq<Raw>)> {
    if s == [] then None
    else if s[0].kind.White? then
      match ScanAttribute(s[1..])
      case None => None
      case Some((text, rest)) => Some((s[0].text + text, rest))
    else if s[0].kind != Char('(') then None
    else
      match ScanBody(s[1..], 1)
      case None => None
      case Some((text, rest)) => Some((s[0].text + text, rest))
  }

  lemma {:induction false} BodyShrinks(s: seq<Raw>, depth: nat)
    ensures ScanBody(s, depth).Some? ==> |ScanBody(s, depth).value.1| <= |s|
  {
    if depth > 0 && s != [] {
      BodyShrinks(s[1..], if s[0].kind == Char('(') then depth + 1 else if s[0].kind == Char(')') then depth - 1 else depth);
    }
  }

  lemma {:induction false} AttributeShrinks(s: seq<Raw>)
    ensures ScanAttribute(s).Some? ==> |ScanAttribute(s).value.1| <= |s|
  {
    if s != [] && s[0].kind.White? {
      AttributeShrinks(s[1..]);
    } else if s != [] {
      BodyShrinks(s[1..], 1);
    }
  }

  /** Whitespace and attributes up to the next token, which is left in the stream. */
  function ScanGap(s: seq<Raw>): Option<(string, string, seq<Raw>)>
    decreases |s|
  {
    if s == [] || !InGap(s[0]) then Some(("", "", s))
    else if s[0].kind.White? then
      match ScanGap(s[1..])
      case None => None
      case Some((ws, attrs, rest)) => Some((s[0].text + ws, attrs, rest))
    else
      AttributeShrinks(s[1..]);
      match ScanAttribute(s[1..])
      case None => None
      case Some((text, rest)) =>
        match ScanGap(rest)
        case None => None
        case Some((ws, attrs, rest1)) => Some((ws, s[0].text + text + " " + attrs, rest1))
  }

  function Next(s: seq<Raw>): Raw {
    if s == [] then Raw(Eof, "") else s[0]
  }

  function After(s: seq<Raw>): seq<Raw> {
    if s == [] then [] else s[1..]
  }

  // ---------------------------------------------------------------- holding a token back

  datatype Info = Info(token: Kind, tokenText: string, attrText: string, lexText: string)

  /** What the parser gets: a token and the texts that go with it. */
  datatype Token = Token(kind: Kind, tokenText: string, wsText: string, attrText: string, lexText: string)

  datatype State = State(stream: seq<Raw>, last: Option<Info>, printed: string)

  predicate AttributesBefore(token: Kind) {
    token == Char(';') || token == Char('}')
  }

  function Classify(token: Kind, text: string, types: set<string>): Kind {
    if token.Identifier? && text in types then TypedefName else token
  }

  /** The first token is only saved. */
  function Save(st: State): Option<State> {
    match ScanGap(st.stream)
    case None => None
    case Some((ws, attrs, rest)) =>
      var t := Next(rest);
      Some(State(After(rest), Some(Info(t.kind, t.text, attrs, attrs + t.text)), st.printed + ws))
  }

  function Shift(stream: seq<Raw>, last: Info, printed: string, types: set<string>): Option<(Token, State)> {
    match ScanGap(stream)
    case None => None
    case Some((ws, attrs, rest)) =>
      var t, hack := Next(rest), AttributesBefore(last.token);
      Some((Token(Classify(last.token, last.tokenText, types), last.tokenText, ws,
                  (if hack then "" else last.attrText) + attrs,
                  last.lexText + ws + if hack then "" else attrs),
            State(After(rest),
                  Some(Info(t.kind, t.text, if hack then last.attrText + attrs else "",
                            (if hack then attrs else "") + t.text)),
                  printed)))
  }

  function NextToken(st: State, types: set<string>): Option<(Token, State)> {
    if st.last.Some? then Shift(st.stream, st.last.value, st.printed, types)
    else
      match Save(st)
      case None => None
      case Some(st1) => Shift(st1.stream, st1.last.value, st1.printed, types)
  }

  /** As many calls as there are elements of types, each with the typedefs known at the time. */
  function Calls(st: State, types: seq<set<string>>): Option<(seq<Token>, State)>
    decreases |types|
  {
    if types == [] then Some(([], st))
    else
      match NextToken(st, types[0])
      case None => None
      case Some((t, st1)) =>
        match Calls(st1, types[1..])
        case None => None
        case Some((ts, st2)) => Some(([t] + ts, st2))
  }

  function LexTexts(ts: seq<Token>): string {
    if ts == [] then "" else ts[0].lexText + LexTexts(ts[1..])
  }

  // ---------------------------------------------------------------- input by its structure

  /** Between two tokens: whitespace, and attributes with their parenthesised bodies. */
  datatype Piece = Space(text: string) | Attr(head: string, spaces: seq<Raw>, body: seq<Raw>)

  /** A token with the gap before it. */
  datatype Unit = Unit(gap: seq<Piece>, token: Raw)

  function Texts(s: seq<Raw>): string {
    if s == [] then "" else s[0].text + Texts(s[1..])
  }

  /** The parentheses close with the last token, and not before. */
  predicate Closes(s: seq<Raw>, depth: nat) {
    if depth == 0 then s == []
    else s != [] && Closes(s[1..], if s[0].kind == Char('(') then depth + 1 else if s[0].kind == Char(')') then depth - 1 else depth)
  }

  predicate IsPiece(p: Piece) {
    p.Attr? ==>
      && (forall i :: 0 <= i < |p.spaces| ==> p.spaces[i].kind.White?)
      && p.body != [] && p.body[0].kind == Char('(') && Closes(p.body[1..], 1)
  }

  function PieceRaws(p: Piece): seq<Raw> {
    match p
    case Space(text) => [Raw(White, text)]
    case Attr(head, spaces, body) => [Raw(Attribute, head)] + (spaces + body)
  }

  function GapRaws(gap: seq<Piece>): seq<Raw> {
    if gap == [] then [] else PieceRaws(gap[0]) + GapRaws(gap[1..])
  }

  function WhiteText(gap: seq<Piece>): string {
    if gap == [] then "" else (if gap[0].Space? then gap[0].text else "") + WhiteText(gap[1..])
  }

  /** Each attribute with one space after it. */
  function AttrText(gap: seq<Piece>): string {
    if gap == [] then ""
    else if gap[0].Space? then AttrText(gap[1..])
    else gap[0].head + (Texts(gap[0].spaces) + Texts(gap[0].body)) + " " + AttrText(gap[1..])
  }

  /** Ends in the end of the file, which is not in the stream. */
  predicate IsInput(units: seq<Unit>) {
    && units != []
    && (forall j :: 0 <= j < |units[0].gap| ==> IsPiece(units[0].gap[j]))
    && !InGap(units[0].token)
    && if units[0].token.kind.Eof? then |units| == 1 && units[0].token.text == "" else IsInput(units[1..])
  }

  function Raws(units: seq<Unit>): seq<Raw> {
    if units == [] then []
    else GapRaws(units[0].gap) + ((if units[0].token.kind.Eof? then [] else [units[0].token]) + Raws(units[1..]))
  }

  /** The text of the input, with the whitespace of each gap before its attributes. */
  function Tidy(units: seq<Unit>): string {
    if units == [] then ""
    else WhiteText(units[0].gap) + AttrText(units[0].gap) + units[0].token.text + Tidy(units[1..])
  }

  // ---------------------------------------------------------------- gaps are scanned as they are

  lemma {:induction false} BodyScanned(s: seq<Raw>, depth: nat, rest: seq<Raw>)
    requires Closes(s, depth)
    ensures ScanBody(s + rest, depth) == Some((Texts(s), rest))
  {
    if depth == 0 {
      assert s + rest == rest;
    } else {
      assert (s + rest)[1..] == s[1..] + rest;
      BodyScanned(s[1..], if s[0].kind == Char('(') then depth + 1 else if s[0].kind == Char(')') then depth - 1 else depth, rest);
    }
  }

  lemma {:induction false} AttributeScanned(spaces: seq<Raw>, body: seq<Raw>, rest: seq<Raw>)
    requires forall i :: 0 <= i < |spaces| ==> spaces[i].kind.White?
    requires body != [] && body[0].kind == Char('(') && Closes(body[1..], 1)
    ensures ScanAttribute(spaces + body + rest) == Some((Texts(spaces) + Texts(body), rest))
  {
    if spaces == [] {
      assert spaces + body + rest == body + rest && (body + rest)[1..] == body[1..] + rest;
      BodyScanned(body[1..], 1, rest);
      assert "" + Texts(body) == Texts(body);
    } else {
      assert (spaces + body + rest)[1..] == spaces[1..] + body + rest;
      AttributeScanned(spaces[1..], body, rest);
      assert spaces[0].text + (Texts(spaces[1..]) + Texts(body)) == Texts(spaces) + Texts(body);
    }
  }

  lemma {:induction false} SpaceScanned(text: string, more: seq<Raw>)
    ensures ScanGap([Raw(White, text)] + more)
         == match ScanGap(more)
            case None => None
            case Some((ws, attrs, rest)) => Some((text + ws, attrs, rest))
  {
    assert ([Raw(White, text)] + more)[1..] == more;
  }

  lemma {:induction false} AttrScanned(head: string, s: seq<Raw>, text: string, more: seq<Raw>)
    requires ScanAttribute(s) == Some((text, more))
    ensures ScanGap([Raw(Attribute, head)] + s)
         == match ScanGap(more)
            case None => None
            case Some((ws, attrs, rest)) => Some((ws, head + text + " " + attrs, rest))
  {
    hide ScanAttribute;
    assert ([Raw(Attribute, head)] + s)[1..] == s;
  }

  lemma {:induction false} GapScanned(gap: seq<Piece>, rest: seq<Raw>)
    requires (forall j :: 0 <= j < |gap| ==> IsPiece(gap[j])) && (rest == [] || !InGap(rest[0]))
    ensures ScanGap(GapRaws(gap) + rest) == Some((WhiteText(gap), AttrText(gap), rest))
  {
    if gap == [] {
      assert GapRaws(gap) + rest == rest;
    } else {
      GapScanned(gap[1..], rest);
      FirstScanned(gap, rest);
    }
  }

  lemma {:induction false} FirstScanned(gap: seq<Piece>, rest: seq<Raw>)
    requires gap != [] && IsPiece(gap[0])
    requires ScanGap(GapRaws(gap[1..]) + rest) == Some((WhiteText(gap[1..]), AttrText(gap[1..]), rest))
    ensures ScanGap(GapRaws(gap) + rest) == Some((WhiteText(gap), AttrText(gap), rest))
  {
    hide ScanGap, GapRaws, PieceRaws, WhiteText, AttrText, Texts, IsPiece;
    GapUnfolds(gap, rest);
    match gap[0]
    case Space(text) =>
      SpaceScanned(text, GapRaws(gap[1..]) + rest);
    case Attr(head, spaces, body) =>
      BodyOf(gap[0]);
      AttributeScanned(spaces, body, GapRaws(gap[1..]) + rest);
      AttrScanned(head, spaces + body + (GapRaws(gap[1..]) + rest), Texts(spaces) + Texts(body), GapRaws(gap[1..]) + rest);
  }

  lemma BodyOf(p: Piece)
    requires p.Attr? && IsPiece(p)
    ensures (forall i :: 0 <= i < |p.spaces| ==> p.spaces[i].kind.White?)
    ensures p.body != [] && p.body[0].kind == Char('(') && Closes(p.body[1..], 1)
  {
  }

  lemma Associates<T>(a: seq<T>, b: seq<T>, c: seq<T>)
    ensures a + b + c == a + (b + c)
  {
  }

  /** A gap by its first piece. */
  lemma {:induction false} GapUnfolds(gap: seq<Piece>, rest: seq<Raw>)
    requires gap != []
    ensures gap[0].Space? ==>
              && GapRaws(gap) + rest == [Raw(White, gap[0].text)] + (GapRaws(gap[1..]) + rest)
              && WhiteText(gap) == gap[0].text + WhiteText(gap[1..]) && AttrText(gap) == AttrText(gap[1..])
    ensures gap[0].Attr? ==>
              && GapRaws(gap) + rest
              == [Raw(Attribute, gap[0].head)] + (gap[0].spaces + gap[0].body + (GapRaws(gap[1..]) + rest))
              && WhiteText(gap) == WhiteText(gap[1..])
              && AttrText(gap) == gap[0].head + (Texts(gap[0].spaces) + Texts(gap[0].body)) + " " + AttrText(gap[1..])
  {
    hide Texts;
    Associates(PieceRaws(gap[0]), GapRaws(gap[1..]), rest);
    NothingBefore(WhiteText(gap[1..]));
    if gap[0].Attr? {
      Associates([Raw(Attribute, gap[0].head)], gap[0].spaces + gap[0].body, GapRaws(gap[1..]) + rest);
    }
  }

  lemma NothingBefore(s: string)
    ensures "" + s == s
  {
  }

  // ---------------------------------------------------------------- no text is lost

  /** One unit of the input is scanned whole. */
  lemma {:induction false} UnitScanned(units: seq<Unit>)
    requires IsInput(units)
    ensures var (gap, t) := (units[0].gap, units[0].token);
            && var scanned := ScanGap(Raws(units));
               scanned.Some? && scanned.value.0 == WhiteText(gap) && scanned.value.1 == AttrText(gap)
               && Next(scanned.value.2) == t && After(scanned.value.2) == Raws(units[1..])
  {
    var t := units[0].token;
    var rest := (if t.kind.Eof? then [] else [t]) + Raws(units[1..]);
    assert Raws(units) == GapRaws(units[0].gap) + rest;
    GapScanned(units[0].gap, rest);
    if t.kind.Eof? {
      assert units[1..] == [] && rest == [] && t == Raw(Eof, "");
    } else {
      assert rest[1..] == Raws(units[1..]);
    }
  }

  /** What is left to come: the token held back and the tokens of the rest of the input. */
  function Kinds(units: seq<Unit>): seq<Kind> {
    if units == [] then [] else [units[0].token.kind] + Kinds(units[1..])
  }

  function Words(units: seq<Unit>): seq<string> {
    if units == [] then [] else [units[0].token.text] + Words(units[1..])
  }

  ghost predicate Returned(ts: seq<Token>, kinds: seq<Kind>, words: seq<string>, types: seq<set<string>>) {
    && |ts| == |kinds| == |words| == |types|
    && forall i :: 0 <= i < |ts| ==>
         && ts[i].tokenText == words[i]
         && ts[i].kind == if kinds[i] == Identifier && words[i] in types[i] then TypedefName else kinds[i]
  }

  /** One call, with the token held back before and after it. */
  lemma OneReturned(st: State, units: seq<Unit>, types: set<string>) returns (t: Token, st1: State)
    requires st.last.Some? && st.stream == Raws(units) && IsInput(units)
    ensures NextToken(st, types) == Some((t, st1)) && st1.last.Some? && st1.printed == st.printed
    ensures t.tokenText == st.last.value.tokenText
    ensures t.kind == if st.last.value.token == Identifier && t.tokenText in types then TypedefName
                      else st.last.value.token
    ensures st1.stream == Raws(units[1..]) && st1.last.value.token == units[0].token.kind
    ensures st1.last.value.tokenText == units[0].token.text
    ensures t.lexText + (st1.last.value.lexText + Tidy(units[1..])) == st.last.value.lexText + Tidy(units)
    ensures if units[1..] == [] then units[0].token.kind.Eof? else IsInput(units[1..])
  {
    UnitScanned(units);
    hide ScanGap, Tidy;
    t, st1 := NextToken(st, types).value.0, NextToken(st, types).value.1;
    UnitsTogether(st.last.value, units, t.lexText, st1.last.value.lexText);
  }

  /** At the end of the file the token held back is the end itself. */
  lemma EndReturned(st: State, types: set<string>) returns (t: Token, st1: State)
    requires st.last.Some? && st.stream == [] && st.last.value.token.Eof?
    ensures NextToken(st, types) == Some((t, st1)) && st1.printed == st.printed
    ensures t.tokenText == st.last.value.tokenText
    ensures t.kind == if st.last.value.token == Identifier && t.tokenText in types then TypedefName
                      else st.last.value.token
    ensures t.lexText == st.last.value.lexText
  {
    t, st1 := NextToken(st, types).value.0, NextToken(st, types).value.1;
  }

  lemma {:induction false} FirstOfCalls(st: State, types: seq<set<string>>, t: Token, st1: State, ts: seq<Token>,
                                        st2: State)
    requires types != [] && NextToken(st, types[0]) == Some((t, st1)) && Calls(st1, types[1..]) == Some((ts, st2))
    ensures Calls(st, types) == Some(([t] + ts, st2))
  {
    hide NextToken;
  }

  lemma {:induction false} FirstText(t: Token, ts: seq<Token>)
    ensures LexTexts([t] + ts) == t.lexText + LexTexts(ts)
  {
    assert ([t] + ts)[1..] == ts;
  }

  lemma {:induction false} NoneReturned(st: State)
    ensures Calls(st, []) == Some(([], st)) && LexTexts([]) == ""
  {
  }

  lemma {:induction false} RestReturned(st: State, units: seq<Unit>, types: seq<set<string>>)
    requires st.last.Some? && st.stream == Raws(units) && |types| == |units| + 1
    requires if units == [] then st.last.value.token.Eof? else IsInput(units)
    ensures var r := Calls(st, types);
            && r.Some? && r.value.1.printed == st.printed
            && Returned(r.value.0, [st.last.value.token] + Kinds(units), [st.last.value.tokenText] + Words(units), types)
            && LexTexts(r.value.0) == st.last.value.lexText + Tidy(units)
    decreases |units|
  {
    if units == [] {
      var t, st1 := EndReturned(st, types[0]);
      assert types[1..] == [];
      NoneReturned(st1);
      FirstOfCalls(st, types, t, st1, [], st1);
      FirstText(t, []);
      assert [t] + [] == [t];
    } else {
      var t, st1 := OneReturned(st, units, types[0]);
      hide NextToken, IsInput, Raws, Tidy, Calls, LexTexts, Returned, Kinds, Words;
      RestReturned(st1, units[1..], types[1..]);
      var (ts, st2) := Calls(st1, types[1..]).value;
      FirstOfCalls(st, types, t, st1, ts, st2);
      FirstText(t, ts);
      ReturnedTogether(t, ts, st.last.value, units, types);
      Associates(t.lexText, st1.last.value.lexText, Tidy(units[1..]));
    }
  }

  lemma {:induction false} ReturnedTogether(t: Token, ts: seq<Token>, last: Info, units: seq<Unit>,
                                            types: seq<set<string>>)
    requires units != [] && types != []
    requires t.tokenText == last.tokenText
    requires t.kind == if last.token == Identifier && last.tokenText in types[0] then TypedefName else last.token
    requires Returned(ts, [units[0].token.kind] + Kinds(units[1..]), [units[0].token.text] + Words(units[1..]), types[1..])
    ensures Returned([t] + ts, [last.token] + Kinds(units), [last.tokenText] + Words(units), types)
  {
    assert Kinds(units) == [units[0].token.kind] + Kinds(units[1..]);
    assert Words(units) == [units[0].token.text] + Words(units[1..]);
  }

  /** Whether the attributes go with the token before them or with the one after, the text is the same. */
  lemma {:induction false} UnitsTogether(last: Info, units: seq<Unit>, lexText: string, nextText: string)
    requires units != []
    requires var (gap, hack) := (units[0].gap, AttributesBefore(last.token));
             && lexText == last.lexText + WhiteText(gap) + (if hack then "" else AttrText(gap))
             && nextText == (if hack then AttrText(gap) else "") + units[0].token.text
    ensures lexText + (nextText + Tidy(units[1..])) == last.lexText + Tidy(units)
  {
    hide Tidy, WhiteText, AttrText;
    var a, b, c, d, e := last.lexText, WhiteText(units[0].gap), AttrText(units[0].gap), units[0].token.text, Tidy(units[1..]);
    TidyUnfolds(units);
    if AttributesBefore(last.token) {
      Regroup(a, b, "", c, d, e);
    } else {
      Regroup(a, b, c, "", d, e);
    }
  }

  lemma {:induction false} TidyUnfolds(units: seq<Unit>)
    requires units != []
    ensures Tidy(units) == WhiteText(units[0].gap) + AttrText(units[0].gap) + units[0].token.text + Tidy(units[1..])
  {
    hide WhiteText, AttrText;
  }

  lemma Regroup(a: string, b: string, c: string, c1: string, d: string, e: string)
    requires c == "" || c1 == ""
    ensures a + b + c + (c1 + d + e) == a + (b + (if c == "" then c1 else c) + d + e)
  {
    if c == "" {
      assert a + b + c + (c1 + d + e) == a + (b + c1 + d + e);
    } else {
      assert a + b + c + (c1 + d + e) == a + (b + c + d + e);
    }
  }

  /** The call that saves the first token goes on to return it. */
  lemma {:induction false} FirstCall(st: State, st1: State, types: seq<set<string>>)
    requires st.last.None? && Save(st) == Some(st1) && types != []
    ensures Calls(st, types) == Calls(st1, types)
  {
    hide Save, Shift;
    assert NextToken(st, types[0]) == NextToken(st1, types[0]) by {
      SavedIsLast(st, st1);
    }
  }

  lemma SavedIsLast(st: State, st1: State)
    requires Save(st) == Some(st1)
    ensures st1.last.Some?
  {
  }

  /**
    From the start of the input every token is returned, in order, with the typedefs known when it is returned; and the
    whitespace printed and the texts that go with the tokens are the whole input, tidied.
  */
  lemma {:induction false} InputReturned(units: seq<Unit>, types: seq<set<string>>)
    requires IsInput(units) && |types| == |units|
    ensures var r := Calls(State(Raws(units), None, ""), types);
            && r.Some? && Returned(r.value.0, Kinds(units), Words(units), types)
            && r.value.1.printed + LexTexts(r.value.0) == Tidy(units)
  {
    hide Tidy, WhiteText, AttrText, Calls, LexTexts, Save, Raws, ScanGap, Returned, IsInput;
    var st := State(Raws(units), None, "");
    var st1 := SavedFirst(units);
    RestReturned(st1, units[1..], types);
    FirstCall(st, st1, types);
    TidyUnfolds(units);
    FirstUnit(WhiteText(units[0].gap), AttrText(units[0].gap), units[0].token.text, Tidy(units[1..]));
  }

  lemma SavedFirst(units: seq<Unit>) returns (st1: State)
    requires IsInput(units)
    ensures Save(State(Raws(units), None, "")) == Some(st1)
    ensures st1 == State(Raws(units[1..]),
                         Some(Info(units[0].token.kind, units[0].token.text, AttrText(units[0].gap),
                                   AttrText(units[0].gap) + units[0].token.text)),
                         "" + WhiteText(units[0].gap))
    ensures units != [] && if units[1..] == [] then units[0].token.kind.Eof? else IsInput(units[1..])
    ensures Kinds(units) == [units[0].token.kind] + Kinds(units[1..])
    ensures Words(units) == [units[0].token.text] + Words(units[1..])
  {
    UnitScanned(units);
    hide ScanGap;
    st1 := Save(State(Raws(units), None, "")).value;
  }

  lemma FirstUnit(ws: string, attrs: string, text: string, rest: string)
    ensures "" + ws + (attrs + text + rest) == ws + attrs + text + rest
  {
  }

  // ---------------------------------------------------------------- which texts go with which token

  function GapAfter(units: seq<Unit>, i: nat): seq<Piece> {
    if i + 1 < |units| then units[i + 1].gap else []
  }

  /** Attributes printed in front of a token: at the start of the input, and after ';' and '}'. */
  function AttrsBefore(units: seq<Unit>, i: nat): string
    requires i < |units|
  {
    if i == 0 || units[i - 1].token.kind in {Char(';'), Char('}')} then AttrText(units[i].gap) else ""
  }

  /** Attributes that belong to a token although they stand before it, and before any ';' and '}' just before it. */
  function AttrsWaiting(units: seq<Unit>, i: nat): string
    requires i < |units|
  {
    if i == 0 then AttrText(units[0].gap)
    else if units[i - 1].token.kind in {Char(';'), Char('}')} then AttrsWaiting(units, i - 1) + AttrText(units[i].gap)
    else ""
  }

  /** The whitespace after a token goes with it, and so do the attributes after it unless it is ';' or '}'. */
  ghost predicate HasItsTexts(t: Token, units: seq<Unit>, i: nat)
    requires i < |units|
  {
    var u, ends, after := units[i], units[i].token.kind in {Char(';'), Char('}')}, GapAfter(units, i);
    && t.wsText == WhiteText(after)
    && t.attrText == (if ends then "" else AttrsWaiting(units, i)) + AttrText(after)
    && t.lexText == AttrsBefore(units, i) + u.token.text + WhiteText(after) + if ends then "" else AttrText(after)
  }

  function InfoAt(units: seq<Unit>, i: nat): Info
    requires i < |units|
  {
    Info(units[i].token.kind, units[i].token.text, AttrsWaiting(units, i), AttrsBefore(units, i) + units[i].token.text)
  }

  /** The state in which the i-th token is held back. */
  ghost predicate Holds(st: State, units: seq<Unit>, i: nat) {
    && i < |units| && st.last == Some(InfoAt(units, i)) && st.stream == Raws(units[i + 1..])
    && if i + 1 == |units| then units[i].token.kind.Eof? else IsInput(units[i + 1..])
  }

  ghost predicate HaveTheirTexts(ts: seq<Token>, units: seq<Unit>, i: nat) {
    i + |ts| == |units| && forall j :: 0 <= j < |ts| ==> HasItsTexts(ts[j], units, i + j)
  }

  lemma OneTexts(st: State, units: seq<Unit>, i: nat, types: set<string>) returns (t: Token, st1: State)
    requires Holds(st, units, i)
    ensures NextToken(st, types) == Some((t, st1)) && HasItsTexts(t, units, i)
    ensures i + 1 < |units| ==> Holds(st1, units, i + 1)
  {
    if i + 1 < |units| {
      UnitScanned(units[i + 1..]);
      assert units[i + 1..][1..] == units[i + 2..];
      assert units[i + 2..] != [] ==> IsInput(units[i + 2..]);
    } else {
      assert units[i + 1..] == [];
    }
    hide ScanGap, WhiteText, AttrText;
    t, st1 := NextToken(st, types).value.0, NextToken(st, types).value.1;
  }

  lemma {:induction false} EachTexts(st: State, units: seq<Unit>, i: nat, types: seq<set<string>>)
    requires i < |units| == i + |types| && Holds(st, units, i)
    ensures Calls(st, types).Some? && HaveTheirTexts(Calls(st, types).value.0, units, i)
    decreases |types|
  {
    hide *;
    var t, st1 := OneTexts(st, units, i, types[0]);
    if i + 1 < |units| {
      EachTexts(st1, units, i + 1, types[1..]);
    } else {
      assert types[1..] == [];
      NoneReturned(st1);
      NoTexts(units);
    }
    var (ts, st2) := Calls(st1, types[1..]).value;
    FirstOfCalls(st, types, t, st1, ts, st2);
    TextsTogether(t, ts, units, i);
  }

  lemma NoTexts(units: seq<Unit>)
    ensures HaveTheirTexts([], units, |units|)
  {
  }

  lemma TextsTogether(t: Token, ts: seq<Token>, units: seq<Unit>, i: nat)
    requires i < |units| && HasItsTexts(t, units, i) && HaveTheirTexts(ts, units, i + 1)
    ensures HaveTheirTexts([t] + ts, units, i)
  {
    hide HasItsTexts;
    forall j | 0 <= j < |[t] + ts|
      ensures HasItsTexts(([t] + ts)[j], units, i + j)
    {
      if j > 0 {
        assert HasItsTexts(ts[j - 1], units, i + 1 + (j - 1));
      }
    }
  }

  /** Each token comes with its own texts: whitespace always after it, attributes on the side where they belong. */
  lemma {:induction false} TextsReturned(units: seq<Unit>, types: seq<set<string>>)
    requires IsInput(units) && |types| == |units|
    ensures var r := Calls(State(Raws(units), None, ""), types);
            r.Some? && HaveTheirTexts(r.value.0, units, 0)
  {
    hide WhiteText, AttrText, Calls, Save, Raws, ScanGap, HaveTheirTexts, IsInput;
    var st1 := SavedFirst(units);
    EachTexts(st1, units, 0, types);
    FirstCall(State(Raws(units), None, ""), st1, types);
  }

  // ---------------------------------------------------------------- the scanner's loops

  function Behind(text: string, r: Option<(string, seq<Raw>)>): Option<(string, seq<Raw>)> {
    match r
    case None => None
    case Some((more, rest)) => Some((text + more, rest))
  }

  function BehindGap(ws: string, attrs: string, r: Option<(string, string, seq<Raw>)>)
    : Option<(string, string, seq<Raw>)>
  {
    match r
    case None => None
    case Some((moreWs, moreAttrs, rest)) => Some((ws + moreWs, attrs + moreAttrs, rest))
  }

  lemma BodyStep(s: seq<Raw>, depth: nat, text: string)
    requires s != [] && depth > 0
    ensures var depth1 := if s[0].kind == Char('(') then depth + 1
                          else if s[0].kind == Char(')') then depth - 1 else depth;
            Behind(text, ScanBody(s, depth)) == Behind(text + s[0].text, ScanBody(s[1..], depth1))
  {
    var depth1 := if s[0].kind == Char('(') then depth + 1 else if s[0].kind == Char(')') then depth - 1 else depth;
    var r := ScanBody(s[1..], depth1);
    if r.Some? {
      Associates(text, s[0].text, r.value.0);
    }
  }

  lemma {:induction false} AttributeStep(s: seq<Raw>, text: string)
    requires s != [] && s[0].kind.White?
    ensures Behind(text, ScanAttribute(s)) == Behind(text + s[0].text, ScanAttribute(s[1..]))
  {
    var r := ScanAttribute(s[1..]);
    if r.Some? {
      Associates(text, s[0].text, r.value.0);
    }
  }

  lemma {:induction false} AttributeOpens(s: seq<Raw>, text: string)
    requires s != [] && s[0].kind == Char('(')
    ensures Behind(text, ScanAttribute(s)) == Behind(text + s[0].text, ScanBody(s[1..], 1))
  {
    var r := ScanBody(s[1..], 1);
    if r.Some? {
      Associates(text, s[0].text, r.value.0);
    }
  }

  lemma {:induction false} GapStep(s: seq<Raw>, ws: string, attrs: string)
    requires s != [] && InGap(s[0])
    ensures s[0].kind.White? ==> BehindGap(ws, attrs, ScanGap(s)) == BehindGap(ws + s[0].text, attrs, ScanGap(s[1..]))
    ensures s[0].kind.White? || ScanAttribute(s[1..]).None?
         || BehindGap(ws, attrs, ScanGap(s))
         == BehindGap(ws, attrs + s[0].text + ScanAttribute(s[1..]).value.0 + " ", ScanGap(ScanAttribute(s[1..]).value.1))
    ensures s[0].kind.Attribute? && ScanGap(s).Some? ==> ScanAttribute(s[1..]).Some?
  {
    hide ScanAttribute;
    if s[0].kind.White? {
      var r := ScanGap(s[1..]);
      if r.Some? {
        Associates(ws, s[0].text, r.value.0);
      }
    } else {
      var a := ScanAttribute(s[1..]);
      if a.Some? && ScanGap(a.value.1).Some? {
        FourTexts(attrs, s[0].text, a.value.0, " ", ScanGap(a.value.1).value.1);
      }
    }
  }

  lemma FourTexts(a: string, b: string, c: string, d: string, e: string)
    ensures a + (b + c + d + e) == a + b + c + d + e
  {
  }

  class Scanner {
    var stream: seq<Raw>
    var last: Option<Info>   // the token that is held back
    var printed: string

    ghost function Value(): State
      reads this
    {
      State(stream, last, printed)
    }

    constructor (stream: seq<Raw>)
      ensures Value() == State(stream, None, "")
    {
      this.stream, last, printed := stream, None, "";
    }

    method Lexscan() returns (t: Raw)
      modifies `stream
      ensures t == Next(old(stream)) && stream == After(old(stream))
    {
      if stream == [] {
        t := Raw(Eof, "");
      } else {
        t, stream := stream[0], stream[1..];
      }
    }

    /** The rest of an attribute.  The code stops with a failed assertion, or hangs, when it is not balanced. */
    method ParseAttr() returns (text: string)
      requires ScanAttribute(stream).Some?
      modifies `stream
      ensures ScanAttribute(old(stream)) == Some((text, stream))
    {
      ghost var start := ScanAttribute(stream);
      hide ScanAttribute, ScanBody;
      text := "";
      StartsEmpty(start);
      Opens(stream);
      var token := Lexscan();
      ghost var before := [token] + stream;
      while token.kind.White?
        invariant before == [token] + stream && Behind(text, ScanAttribute(before)) == start
        decreases |stream|
      {
        AttributeStep(before, text);
        assert before[1..] == stream;
        text := text + token.text;
        Opens(stream);
        token := Lexscan();
        before := [token] + stream;
      }
      NotWhite(before);
      AttributeOpens(before, text);
      assert before[1..] == stream;
      text := text + token.text;
      var depth := 1;
      while depth > 0
        invariant depth >= 0 && Behind(text, ScanBody(stream, depth)) == start
        decreases |stream|
      {
        BodyGoesOn(stream, depth);
        BodyStep(stream, depth, text);
        token := Lexscan();
        if token.kind == Char('(') {
          depth := depth + 1;
        } else if token.kind == Char(')') {
          depth := depth - 1;
        }
        text := text + token.text;
      }
      BodyDone(stream, text);
    }

    /** Whitespace and attributes up to the next token. */
    method ReadGap() returns (ws: string, attrs: string)
      requires ScanGap(stream).Some?
      modifies `stream
      ensures ScanGap(old(stream)) == Some((ws, attrs, stream))
    {
      ghost var start := ScanGap(stream);
      ws, attrs := "", "";
      GapStarts(start);
      hide ScanGap, ScanAttribute;
      while stream != [] && InGap(stream[0])
        invariant BehindGap(ws, attrs, ScanGap(stream)) == start
        decreases |stream|
      {
        GapStep(stream, ws, attrs);
        AttributeShrinks(stream[1..]);
        var token := Lexscan();
        if token.kind.White? {
          ws := ws + token.text;
        } else {
          attrs := attrs + token.text;
          var text := ParseAttr();
          attrs := attrs + text + " ";
        }
      }
      GapDone(stream, ws, attrs);
    }

    method Yylex(types: set<string>) returns (t: Token)
      requires NextToken(Value(), types).Some?
      modifies this
      ensures NextToken(old(Value()), types) == Some((t, Value()))
    {
      hide ScanGap;
      if last.None? {
        var ws, attrs := ReadGap();
        var first := Lexscan();
        last := Some(Info(first.kind, first.text, attrs, attrs + first.text));
        printed := printed + ws;
      }
      var ws, attrs := ReadGap();
      var next := Lexscan();
      var info := last.value;
      var hack := AttributesBefore(info.token);
      t := Token(Classify(info.token, info.tokenText, types), info.tokenText, ws,
                 (if hack then "" else info.attrText) + attrs,
                 info.lexText + ws + if hack then "" else attrs);
      last := Some(Info(next.kind, next.text, if hack then info.attrText + attrs else "",
                        (if hack then attrs else "") + next.text));
    }
  }

  lemma StartsEmpty(r: Option<(string, seq<Raw>)>)
    ensures Behind("", r) == r
  {
    if r.Some? {
      NothingBefore(r.value.0);
    }
  }

  lemma GapStarts(r: Option<(string, string, seq<Raw>)>)
    ensures BehindGap("", "", r) == r
  {
    if r.Some? {
      NothingBefore(r.value.0);
      NothingBefore(r.value.1);
    }
  }

  lemma {:induction false} Opens(s: seq<Raw>)
    ensures ScanAttribute(s).Some? ==> s != [] && s == [s[0]] + s[1..]
  {
  }

  lemma {:induction false} NotWhite(s: seq<Raw>)
    requires s != [] && !s[0].kind.White?
    ensures ScanAttribute(s).Some? ==> s[0].kind == Char('(')
  {
  }

  lemma {:induction false} BodyGoesOn(s: seq<Raw>, depth: nat)
    requires depth > 0
    ensures ScanBody(s, depth).Some? ==> s != []
  {
  }

  lemma {:induction false} BodyDone(s: seq<Raw>, text: string)
    ensures Behind(text, ScanBody(s, 0)) == Some((text, s))
  {
    assert text + "" == text;
  }

  lemma {:induction false} GapDone(s: seq<Raw>, ws: string, attrs: string)
    requires s == [] || !InGap(s[0])
    ensures BehindGap(ws, attrs, ScanGap(s)) == Some((ws, attrs, s))
  {
    assert ws + "" == ws && attrs + "" == attrs;
  }
}
