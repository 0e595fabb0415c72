/**
  IPv6 addresses as text (nsc-0.5.3/omnetpp/IPv6Address.cc): what is printed, with the longest run of zeros as "::", is
  parsed back.
*/
module IPv6Text {
  import opened Wrappers
  import opened IPv6Mask

  // ---------------------------------------------------------------- hexadecimal numbers

  predicate IsHex(c: char) {
    '0' <= c <= '9' || 'a' <= c <= 'f' || 'A' <= c <= 'F'
  }

  function DigitValue(c: char): (v: nat)
    requires IsHex(c)
    ensures v < 16
  {
    if '0' <= c <= '9' then c as int - '0' as int
    else if 'a' <= c <= 'f' then c as int - 'a' as int + 10
    else c as int - 'A' as int + 10
  }

  function Digit(v: nat): (c: char)
    requires v < 16
    ensures IsHex(c) && DigitValue(c) == v && c != ':' && c != '<'
  {
    "0123456789abcdef"[v]
  }

  predicate AllHex(s: string) {
    s == "" || (IsHex(s[0]) && AllHex(s[1..]))
  }

  /** The longest prefix of hexadecimal digits. */
  function HexRun(s: string): (run: string)
    ensures run <= s && AllHex(run)
  {
    if s == "" || !IsHex(s[0]) then "" else [s[0]] + HexRun(s[1..])
  }

  /** The value of some more digits after those worth acc. */
  function HexValue(run: string, acc: nat): nat
    requires AllHex(run)
  {
    if run == "" then acc else HexValue(run[1..], 16 * acc + DigitValue(run[0]))
  }

  /** Lower case, without leading zeros. */
  function Hex(n: nat): (s: string)
    ensures s != "" && IsHex(s[0])
  {
    if n < 16 then [Digit(n)] else Hex(n / 16) + [Digit(n % 16)]
  }

  lemma {:induction false} HexValueAppend(a: string, c: char, acc: nat)
    requires AllHex(a) && IsHex(c)
    ensures AllHex(a + [c]) && HexValue(a + [c], acc) == 16 * HexValue(a, acc) + DigitValue(c)
  {
    if a != "" {
      HexValueAppend(a[1..], c, 16 * acc + DigitValue(a[0]));
      assert (a + [c])[1..] == a[1..] + [c];
    }
  }

  lemma {:induction false} HexValueOfHex(n: nat)
    ensures AllHex(Hex(n)) && HexValue(Hex(n), 0) == n
  {
    if n >= 16 {
      HexValueOfHex(n / 16);
      HexValueAppend(Hex(n / 16), Digit(n % 16), 0);
    }
  }

  predicate EndsRun(rest: string) {
    rest == "" || !IsHex(rest[0])
  }

  lemma {:induction false} RunOf(run: string, rest: string)
    requires AllHex(run) && EndsRun(rest)
    ensures HexRun(run + rest) == run
  {
    if run == "" {
      assert run + rest == rest;
    } else {
      RunOf(run[1..], rest);
      assert (run + rest)[1..] == run[1..] + rest;
    }
  }

  /** What strtoul makes of a run of digits, as an unsigned long of 64 bits, and what an int of 32 bits keeps of that. */
  function ToInt(v: nat): int {
    var w := (if v <= 0xFFFF_FFFF_FFFF_FFFF then v else 0xFFFF_FFFF_FFFF_FFFF) % 0x1_0000_0000;
    if w < 0x8000_0000 then w else w - 0x1_0000_0000
  }

  // ---------------------------------------------------------------- parsing

  type Octal = x: nat | x <= 0xFFFF

  /** Numbers separated by colons, at most eight, after those already read; and the text that is left. */
  function ParseOctals(s: string, octals: seq<Octal>): (r: (seq<Octal>, string))
    requires |octals| < 8
    ensures octals <= r.0 && |r.0| <= 8
    decreases 8 - |octals|, 0
  {
    var run := HexRun(s);
    if run == "" then (octals, if octals != [] then ":" + s else s)
    else
      var v := ToInt(HexValue(run, 0));
      if v < 0 || v > 0xFFFF then (octals, s) else AfterOctal(s[|run|..], octals + [v])
  }

  function AfterOctal(s: string, octals: seq<Octal>): (r: (seq<Octal>, string))
    requires 0 < |octals| <= 8
    ensures octals <= r.0 && |r.0| <= 8
    decreases 8 - |octals|, 1
  {
    if s == "" || s[0] != ':' || |octals| == 8 then (octals, s) else ParseOctals(s[1..], octals)
  }

  const Unspecified := "<unspec>"

  function Zeros(n: nat): seq<Octal> {
    seq(n, _ => 0)
  }

  /** The eight numbers of an address, and the text that is left. */
  function DoTryParse(s: string): Option<(seq<Octal>, string)> {
    if s == Unspecified then Some((Zeros(8), "")) else ParseAddress(s)
  }

  function ParseAddress(s: string): Option<(seq<Octal>, string)> {
    var (head, rest) := ParseOctals(s, []);
    if "::" <= rest then
      var (tail, rest1) := ParseOctals(rest[2..], []);
      if |head| + |tail| > 8 then None else Some((head + Zeros(8 - |head| - |tail|) + tail, rest1))
    else if |head| != 8 then None
    else Some((head, rest))
  }

  function TryParse(s: string): Option<seq<Octal>> {
    match DoTryParse(s)
    case None => None
    case Some((octals, rest)) => if rest == "" then Some(octals) else None
  }

  // ---------------------------------------------------------------- the longest run of zeros

  predicate IsRun(octals: seq<Octal>, a: nat, b: nat) {
    a < b <= |octals| && forall i :: a <= i < b ==> octals[i] == 0
  }

  /** The leftmost of the longest runs of two or more zeros, or an empty gap at the front. */
  ghost predicate IsGap(octals: seq<Octal>, start: nat, end: nat) {
    && (start == end == 0 || (IsRun(octals, start, end) && end - start >= 2))
    && forall a: nat, b: nat :: IsRun(octals, a, b) && b - a >= 2 ==>
         b - a <= end - start && (b - a == end - start ==> start <= a)
  }

  lemma GapIsUnique(octals: seq<Octal>, s: nat, e: nat, s': nat, e': nat)
    requires IsGap(octals, s, e) && IsGap(octals, s', e')
    ensures s == s' && e == e'
  {
    if IsRun(octals, s, e) && e - s >= 2 {
      assert e - s <= e' - s';
    }
    if IsRun(octals, s', e') && e' - s' >= 2 {
      assert e' - s' <= e - s;
    }
  }

  lemma {:induction false} RunIff(octals: seq<Octal>, a: nat, b: nat)
    requires a < b <= |octals|
    ensures IsRun(octals, a, b) <==> octals[a..b] == Zeros(b - a)
  {
    if octals[a..b] == Zeros(b - a) {
      forall i | a <= i < b
        ensures octals[i] == 0
      {
        assert octals[i] == octals[a..b][i - a];
      }
    }
  }

  /** A gap is none, or two or more zeros that no other run of two or more zeros is longer than, or as long and before. */
  lemma {:induction false} GapIff(octals: seq<Octal>, start: nat, end: nat)
    ensures IsGap(octals, start, end) <==>
              && (start == end == 0 || (start + 2 <= end <= |octals| && octals[start..end] == Zeros(end - start)))
              && forall a: nat, b: nat :: a + 2 <= b <= |octals| && octals[a..b] == Zeros(b - a) ==>
                   b - a <= end - start && (b - a == end - start ==> start <= a)
  {
    forall a: nat, b: nat | a < b <= |octals|
      ensures IsRun(octals, a, b) <==> octals[a..b] == Zeros(b - a)
    {
      RunIff(octals, a, b);
    }
  }

  method FindGap(octals: seq<Octal>) returns (start: nat, end: nat)
    requires |octals| == 8
    ensures IsGap(octals, start, end)
  {
    start, end := 0, 0;
    var beg := -1;
    for i := 0 to 8
      invariant -1 <= beg < i || beg == -1
      invariant beg != -1 ==> IsRun(octals, beg, i) && (beg > 0 ==> octals[beg - 1] != 0)
      invariant beg == -1 && i > 0 ==> octals[i - 1] != 0
      invariant start == end == 0 || (IsRun(octals, start, end) && end - start >= 2 && end <= i)
      invariant forall a: nat, b: nat :: IsRun(octals, a, b) && b - a >= 2 && b <= i ==>
                  (beg != -1 && a >= beg) || (b - a <= end - start && (b - a == end - start ==> start <= a))
    {
      if beg == -1 && octals[i] == 0 {
        beg := i;
      } else if beg != -1 && octals[i] != 0 {
        if i - beg >= 2 && i - beg > end - start {
          start, end := beg, i;
        }
        beg := -1;
      }
    }
    if beg != -1 && beg <= 6 && 8 - beg > end - start {
      start, end := beg, 8;
    }
  }

  // ---------------------------------------------------------------- printing

  function Join(octals: seq<Octal>): string {
    if octals == [] then ""
    else if |octals| == 1 then Hex(octals[0])
    else Hex(octals[0]) + ":" + Join(octals[1..])
  }

  /** The text with "::" for the numbers from start to end. */
  function Print(octals: seq<Octal>, start: nat, end: nat): string
    requires start <= end <= |octals|
  {
    Join(octals[..start]) + (if start != end then "::" else "") + Join(octals[end..])
  }

  lemma {:induction false} JoinOne(octals: seq<Octal>, o: Octal)
    ensures Join(octals + [o]) == if octals == [] then Hex(o) else Join(octals) + ":" + Hex(o)
  {
    if |octals| > 0 {
      assert (octals + [o])[1..] == octals[1..] + [o];
      JoinOne(octals[1..], o);
    }
  }

  /** An address is shown by its text. */
  ghost predicate IsText(octals: seq<Octal>, s: string)
    requires |octals| == 8
  {
    if octals == Zeros(8) then s == Unspecified
    else exists start: nat, end: nat :: start <= end <= 8 && IsGap(octals, start, end) && s == Print(octals, start, end)
  }

  // ---------------------------------------------------------------- round trip

  lemma {:induction false} ParseJoin(octals: seq<Octal>, rest: string, before: seq<Octal>)
    requires octals != [] && |before| + |octals| <= 8 && EndsRun(rest)
    ensures ParseOctals(Join(octals) + rest, before) == AfterOctal(rest, before + octals)
  {
    hide Hex, HexRun, HexValue, ToInt, ParseOctals, AfterOctal, Join;
    var o := octals[0];
    JoinIs(octals, rest);
    if |octals| == 1 {
      ParseOne(o, rest, before);
      assert octals == [o];
    } else {
      var text := Join(octals[1..]) + rest;
      ParseOne(o, ":" + text, before);
      AfterColon(text, before + [o]);
      ParseJoin(octals[1..], rest, before + [o]);
      assert before + [o] + octals[1..] == before + octals;
    }
  }

  lemma {:induction false} AfterColon(text: string, octals: seq<Octal>)
    requires 0 < |octals| < 8
    ensures AfterOctal(":" + text, octals) == ParseOctals(text, octals)
  {
    hide ParseOctals;
    assert (":" + text)[1..] == text;
  }

  lemma {:induction false} JoinIs(octals: seq<Octal>, rest: string)
    requires octals != []
    ensures Join(octals) + rest
         == Hex(octals[0]) + if |octals| == 1 then rest else ":" + (Join(octals[1..]) + rest)
  {
    JoinUnfolds(octals);
    hide Hex, Join;
    if |octals| > 1 {
      Associates(Hex(octals[0]), ":", Join(octals[1..]), rest);
    }
  }

  lemma {:induction false} JoinUnfolds(octals: seq<Octal>)
    requires octals != []
    ensures Join(octals) == if |octals| == 1 then Hex(octals[0]) else Hex(octals[0]) + ":" + Join(octals[1..])
  {
    hide Hex;
  }

  lemma Associates(a: string, b: string, c: string, d: string)
    ensures a + b + c + d == a + (b + (c + d))
  {
  }

  lemma ToIntSmall(o: Octal)
    ensures ToInt(o) == o
  {
  }

  lemma {:induction false} ParseOne(o: Octal, more: string, before: seq<Octal>)
    requires |before| < 8 && EndsRun(more)
    ensures ParseOctals(Hex(o) + more, before) == AfterOctal(more, before + [o])
  {
    hide HexRun, Hex, HexValue, ToInt, AfterOctal, AllHex;
    HexValueOfHex(o);
    RunOf(Hex(o), more);
    ToIntSmall(o);
    assert (Hex(o) + more)[|Hex(o)|..] == more;
  }

  lemma {:induction false} ParseTail(octals: seq<Octal>)
    requires |octals| <= 8
    ensures ParseOctals(Join(octals), []) == (octals, "")
  {
    if octals != [] {
      ParseJoin(octals, "", []);
      assert Join(octals) + "" == Join(octals) && [] + octals == octals;
    }
  }

  lemma {:induction false} ParseHead(octals: seq<Octal>, more: string)
    requires |octals| < 8
    ensures ParseOctals(Join(octals) + "::" + more, []) == (octals, "::" + more)
  {
    var rest := "::" + more;
    assert Join(octals) + "::" + more == Join(octals) + rest;
    if octals == [] {
      assert Join(octals) + rest == rest;
    } else {
      ParseJoin(octals, rest, []);
      assert [] + octals == octals;
      assert HexRun(rest[1..]) == "" && ":" + rest[1..] == rest;
    }
  }

  lemma {:induction false} JoinStarts(octals: seq<Octal>)
    requires octals != []
    ensures Join(octals) != "" && IsHex(Join(octals)[0])
  {
    assert Join(octals)[0] == Hex(octals[0])[0];
  }

  lemma NotUnspecified(octals: seq<Octal>, start: nat, end: nat)
    requires start <= end <= |octals| && octals != []
    ensures Print(octals, start, end) != Unspecified
  {
    var s := Print(octals, start, end);
    if start > 0 {
      JoinStarts(octals[..start]);
      assert s[0] == Join(octals[..start])[0];
    } else if end == 0 {
      JoinStarts(octals[end..]);
      assert s[0] == Join(octals[end..])[0];
    } else {
      assert s[0] == ':';
    }
  }

  /** What is printed for an address is parsed back to it, wherever the gap is put. */
  lemma PrintedIsParsed(octals: seq<Octal>, start: nat, end: nat)
    requires |octals| == 8 && start <= end <= 8 && (start == end ==> start == 0)
    requires forall i :: start <= i < end ==> octals[i] == 0
    ensures DoTryParse(Print(octals, start, end)) == Some((octals, ""))
  {
    NotUnspecified(octals, start, end);
    hide Hex, Unspecified, ParseOctals, AfterOctal, Join;
    assert Join(octals[..0]) == "" by {
      JoinNone(octals[..0]);
    }
    if start == end {
      assert octals[0..] == octals && Print(octals, start, end) == Join(octals);
      ParseTail(octals);
      assert !("::" <= "");
    } else {
      ParseGap(octals[..start], octals[end..]);
      assert octals == octals[..start] + Zeros(end - start) + octals[end..];
    }
  }

  lemma {:induction false} JoinNone(octals: seq<Octal>)
    requires octals == []
    ensures Join(octals) == ""
  {
  }

  lemma DropColons(s: string)
    ensures "::" <= "::" + s && ("::" + s)[2..] == s
  {
  }

  lemma {:induction false} ParseGap(head: seq<Octal>, tail: seq<Octal>)
    requires |head| + |tail| < 8
    ensures ParseAddress(Join(head) + "::" + Join(tail)) == Some((head + Zeros(8 - |head| - |tail|) + tail, ""))
  {
    hide ParseOctals, Join;
    var s := Join(head) + "::" + Join(tail);
    ParseHead(head, Join(tail));
    ParseTail(tail);
    DropColons(Join(tail));
    assert ParseOctals(s, []).0 == head;
  }

  /** Every address is parsed back from its text. */
  lemma RoundTrip(octals: seq<Octal>, s: string)
    requires |octals| == 8 && IsText(octals, s)
    ensures TryParse(s) == Some(octals)
  {
    if octals != Zeros(8) {
      var start: nat, end: nat :| start <= end <= 8 && IsGap(octals, start, end) && s == Print(octals, start, end);
      PrintedIsParsed(octals, start, end);
    }
  }

  /** So no two addresses share a text. */
  lemma TextsDiffer(a: seq<Octal>, b: seq<Octal>, s: string)
    requires |a| == |b| == 8 && IsText(a, s) && IsText(b, s)
    ensures a == b
  {
    RoundTrip(a, s);
    RoundTrip(b, s);
  }

  // ---------------------------------------------------------------- upper and lower case

  /** The same character, or the same letter from a to f in another case: the codes of the two cases differ by 32. */
  ghost predicate SameLetter(c: char, d: char) {
    || c == d
    || ('a' <= c <= 'f' && d as int == c as int - 32)
    || ('A' <= c <= 'F' && d as int == c as int + 32)
  }

  ghost predicate SameButCase(a: string, b: string) {
    |a| == |b| && forall i :: 0 <= i < |a| ==> SameLetter(a[i], b[i])
  }

  lemma SameDigit(c: char, d: char)
    requires SameLetter(c, d)
    ensures IsHex(c) <==> IsHex(d)
    ensures IsHex(c) ==> DigitValue(c) == DigitValue(d)
    ensures !IsHex(c) ==> c == d
  {
  }

  lemma {:induction false} SameRun(a: string, b: string)
    requires SameButCase(a, b)
    ensures |HexRun(a)| == |HexRun(b)| && SameButCase(a[|HexRun(a)|..], b[|HexRun(b)|..])
    ensures forall acc: nat :: HexValue(HexRun(a), acc) == HexValue(HexRun(b), acc)
  {
    if a != "" {
      SameDigit(a[0], b[0]);
      SameRun(a[1..], b[1..]);
      if IsHex(a[0]) {
        var x, y := HexRun(a[1..]), HexRun(b[1..]);
        assert ([a[0]] + x)[1..] == x && ([b[0]] + y)[1..] == y;
        assert a[1 + |x|..] == a[1..][|x|..] && b[1 + |y|..] == b[1..][|y|..];
      }
    }
  }

  lemma SameStart(a: string, b: string)
    requires SameButCase(a, b)
    ensures a == "" <==> b == ""
    ensures a != "" ==> (a[0] == ':' <==> b[0] == ':')
    ensures "::" <= a <==> "::" <= b
  {
    if |a| >= 2 {
      assert SameLetter(a[0], b[0]) && SameLetter(a[1], b[1]);
    } else if |a| == 1 {
      assert SameLetter(a[0], b[0]);
    }
  }

  lemma SameRest(a: string, b: string, n: nat)
    requires SameButCase(a, b) && n <= |a|
    ensures SameButCase(a[n..], b[n..]) && SameButCase(":" + a, ":" + b)
  {
  }

  /** The same numbers are read, and what is left differs in case only. */
  lemma {:induction false} SameOctals(a: string, b: string, octals: seq<Octal>)
    requires SameButCase(a, b) && |octals| < 8
    ensures ParseOctals(a, octals).0 == ParseOctals(b, octals).0
    ensures SameButCase(ParseOctals(a, octals).1, ParseOctals(b, octals).1)
    decreases 8 - |octals|
  {
    hide HexRun, HexValue, ToInt, SameLetter, SameButCase;
    SameRun(a, b);
    SameRest(a, b, 0);
    var n, v := |HexRun(a)|, ToInt(HexValue(HexRun(a), 0));
    if n > 0 && 0 <= v <= 0xFFFF {
      var a1, b1, more := a[n..], b[n..], octals + [v];
      SameStart(a1, b1);
      if a1 != "" && a1[0] == ':' && |more| < 8 {
        SameRest(a1, b1, 1);
        SameOctals(a1[1..], b1[1..], more);
      }
    }
  }

  lemma SameAddress(a: string, b: string)
    requires SameButCase(a, b)
    ensures ParseAddress(a).None? <==> ParseAddress(b).None?
    ensures ParseAddress(a).Some? ==>
              && ParseAddress(a).value.0 == ParseAddress(b).value.0
              && SameButCase(ParseAddress(a).value.1, ParseAddress(b).value.1)
  {
    hide ParseOctals, SameLetter, SameButCase;
    SameOctals(a, b, []);
    var rest, rest' := ParseOctals(a, []).1, ParseOctals(b, []).1;
    SameStart(rest, rest');
    if "::" <= rest {
      SameRest(rest, rest', 2);
      SameOctals(rest[2..], rest'[2..], []);
    }
  }

  /** Two texts that differ in the case of the letters a to f only are the same address, but for "<unspec>". */
  lemma CaseIsIgnoredIff(a: string, b: string)
    requires SameButCase(a, b)
    ensures TryParse(a) == TryParse(b) <==> (a == "<unspec>" <==> b == "<unspec>")
  {
    SameAddress(a, b);
    NotAnAddress(a);
    NotAnAddress(b);
    if a != "" {
      assert SameLetter(a[0], b[0]);
    }
    hide ParseAddress, SameLetter;
  }

  lemma NotAnAddress(s: string)
    ensures s != "" && s[0] == '<' ==> ParseAddress(s).None?
  {
  }

  /** Every address is parsed back from its text in any case, unless that is "<unspec>" in another case. */
  lemma AnyCaseRoundTrip(octals: seq<Octal>, s: string, s': string)
    requires |octals| == 8 && IsText(octals, s) && SameButCase(s, s')
    ensures TryParse(s') == Some(octals) <==> (s == "<unspec>" ==> s' == "<unspec>")
  {
    RoundTrip(octals, s);
    CaseIsIgnoredIff(s, s');
    NotAnAddress(s);
    assert s' == "<unspec>" ==> SameLetter(s[0], s'[0]);
  }

  // ---------------------------------------------------------------- what the texts look like

  /** The sixteen digits, in either case. */
  lemma DigitsAre()
    ensures forall v :: 0 <= v < 16 ==>
              && IsHex("0123456789abcdef"[v]) && DigitValue("0123456789abcdef"[v]) == v
              && IsHex("0123456789ABCDEF"[v]) && DigitValue("0123456789ABCDEF"[v]) == v
  {
  }

  /** A number is printed without leading zeros, in digits of lower case, and is the value of what is printed. */
  lemma {:induction false} HexIsCanonical(n: nat)
    ensures Hex(n)[0] == '0' <==> n == 0
    ensures n == 0 ==> Hex(n) == "0"
    ensures forall i :: 0 <= i < |Hex(n)| ==> '0' <= Hex(n)[i] <= '9' || 'a' <= Hex(n)[i] <= 'f'
    ensures AllHex(Hex(n)) && HexValue(Hex(n), 0) == n
  {
    HexValueOfHex(n);
    hide HexValue;
    if n >= 16 {
      HexIsCanonical(n / 16);
    }
  }

  lemma {:induction false} HexFour(a: nat, b: nat, c: nat, d: nat)
    requires 0 < a < 16 && b < 16 && c < 16 && d < 16
    ensures Hex(16 * (16 * (16 * a + b) + c) + d) == [Digit(a), Digit(b), Digit(c), Digit(d)]
  {
    hide *;
    HexOne(a);
    HexLast(a, b);
    HexLast(16 * a + b, c);
    HexLast(16 * (16 * a + b) + c, d);
  }

  lemma {:induction false} HexOne(v: nat)
    requires v < 16
    ensures Hex(v) == [Digit(v)]
  {
  }

  lemma HexLast(high: nat, v: nat)
    requires v < 16 && high > 0
    ensures Hex(16 * high + v) == Hex(high) + [Digit(v)]
  {
    hide Digit;
    assert (16 * high + v) / 16 == high && (16 * high + v) % 16 == v;
  }

  /** An address without a gap is printed as its eight numbers with colons between them. */
  lemma EightNumbers(octals: seq<Octal>)
    requires |octals| == 8
    ensures Print(octals, 0, 0)
         == Hex(octals[0]) + ":" + Hex(octals[1]) + ":" + Hex(octals[2]) + ":" + Hex(octals[3]) + ":"
            + Hex(octals[4]) + ":" + Hex(octals[5]) + ":" + Hex(octals[6]) + ":" + Hex(octals[7])
  {
    hide *;
    PrintWhole(octals);
    JoinUnfolds(octals[..1]);
    JoinUpTo(octals, 1);
    JoinUpTo(octals, 2);
    JoinUpTo(octals, 3);
    JoinUpTo(octals, 4);
    JoinUpTo(octals, 5);
    JoinUpTo(octals, 6);
    JoinUpTo(octals, 7);
    assert octals[..8] == octals;
  }

  lemma {:induction false} PrintWhole(octals: seq<Octal>)
    ensures Print(octals, 0, 0) == Join(octals)
  {
    assert octals[0..] == octals && Join(octals[..0]) == "";
  }

  lemma JoinUpTo(octals: seq<Octal>, i: nat)
    requires 0 < i < |octals|
    ensures Join(octals[..i + 1]) == Join(octals[..i]) + ":" + Hex(octals[i])
  {
    JoinOne(octals[..i], octals[i]);
    assert octals[..i + 1] == octals[..i] + [octals[i]];
  }

  /** Two addresses that the source has as constants, in upper case: LINKLOCAL_PREFIX and SOLICITED_NODE_PREFIX. */
  lemma ConstantsParsed()
    ensures TryParse("FE80::") == Some([0xFE80, 0, 0, 0, 0, 0, 0, 0])
    ensures TryParse("FF02:0:0:0:0:1:FF00:0") == Some([0xFF02, 0, 0, 0, 0, 1, 0xFF00, 0])
  {
    PrefixText();
    NodeText();
    ConstantsInLowerCase();
    hide *;
    var a: seq<Octal>, b: seq<Octal> := [0xFE80, 0, 0, 0, 0, 0, 0, 0], [0xFF02, 0, 0, 0, 0, 1, 0xFF00, 0];
    InUpperCase(a, 1, 8, "FE80::");
    InUpperCase(b, 0, 0, "FF02:0:0:0:0:1:FF00:0");
  }

  lemma InUpperCase(octals: seq<Octal>, start: nat, end: nat, s: string)
    requires |octals| == 8 && start <= end <= 8 && (start == end ==> start == 0)
    requires forall i :: start <= i < end ==> octals[i] == 0
    requires SameButCase(Print(octals, start, end), s) && s != Unspecified
    ensures TryParse(s) == Some(octals)
  {
    PrintedIsParsed(octals, start, end);
    NotUnspecified(octals, start, end);
    CaseIsIgnoredIff(Print(octals, start, end), s);
    hide Print, DoTryParse;
  }

  lemma ConstantsInLowerCase()
    ensures SameButCase("fe80::", "FE80::") && "FE80::" != Unspecified
    ensures SameButCase("ff02:0:0:0:0:1:ff00:0", "FF02:0:0:0:0:1:FF00:0") && "FF02:0:0:0:0:1:FF00:0" != Unspecified
  {
  }

  lemma PrefixText()
    ensures Print([0xFE80, 0, 0, 0, 0, 0, 0, 0], 1, 8) == "fe80::"
  {
    HexFour(15, 14, 8, 0);
    var octals: seq<Octal> := [0xFE80, 0, 0, 0, 0, 0, 0, 0];
    assert octals[..1] == [0xFE80] && octals[8..] == [];
  }

  lemma NodeText()
    ensures Print([0xFF02, 0, 0, 0, 0, 1, 0xFF00, 0], 0, 0) == "ff02:0:0:0:0:1:ff00:0"
  {
    NodeDigits();
    EightNumbers([0xFF02, 0, 0, 0, 0, 1, 0xFF00, 0]);
    hide Hex, Print;
    NodeColons("ff02", "0", "1", "ff00");
  }

  lemma NodeColons(a: string, b: string, c: string, d: string)
    requires a == "ff02" && b == "0" && c == "1" && d == "ff00"
    ensures a + ":" + b + ":" + b + ":" + b + ":" + b + ":" + c + ":" + d + ":" + b == "ff02:0:0:0:0:1:ff00:0"
  {
  }

  lemma NodeDigits()
    ensures Hex(0xFF02) == "ff02" && Hex(0xFF00) == "ff00" && Hex(0) == "0" && Hex(1) == "1"
  {
    HexFour(15, 15, 0, 2);
    HexFour(15, 15, 0, 0);
    HexOne(0);
    HexOne(1);
    hide Hex;
  }

  /** A run of digits is read as a number exactly if it is below 2^64 and its lowest 32 bits are a number of 16 bits. */
  lemma {:induction false} NumberReadIff(run: string, rest: string, before: seq<Octal>)
    requires AllHex(run) && run != "" && EndsRun(rest) && |before| < 8
    ensures var v := HexValue(run, 0);
            ParseOctals(run + rest, before)
            == if v < 0x1_0000_0000_0000_0000 && v % 0x1_0000_0000 <= 0xFFFF
               then AfterOctal(rest, before + [v % 0x1_0000_0000]) else (before, run + rest)
  {
    hide HexRun, HexValue, AfterOctal, AllHex;
    RunOf(run, rest);
    assert (run + rest)[|run|..] == rest;
  }

  /** So a number that is too large by 2^32 is accepted, as if it were not. */
  lemma {:induction false} TooLargeAccepted(o: Octal)
    ensures TryParse(Hex(0x1_0000_0000 + o) + "::") == Some([o] + Zeros(7))
  {
    var run := Hex(0x1_0000_0000 + o);
    HexIsCanonical(0x1_0000_0000 + o);
    NotUnspecifiedText(run);
    WrappedRun(run, o);
    hide *;
    GapParsed(run + "::", [o]);
  }

  lemma NotUnspecifiedText(run: string)
    requires run != "" && IsHex(run[0])
    ensures run + "::" != Unspecified
  {
    assert (run + "::")[0] == run[0];
  }

  lemma {:induction false} WrappedRun(run: string, o: Octal)
    requires AllHex(run) && run != "" && HexValue(run, 0) == 0x1_0000_0000 + o
    ensures ParseOctals(run + "::", []) == ([o], "::")
  {
    hide HexValue, ParseOctals, AfterOctal, AllHex;
    NumberReadIff(run, "::", []);
    ColonsLeft([o]);
    assert [] + [o] == [o];
  }

  lemma {:induction false} GapParsed(s: string, head: seq<Octal>)
    requires s != Unspecified && |head| < 8 && ParseOctals(s, []) == (head, "::")
    ensures TryParse(s) == Some(head + Zeros(8 - |head|))
  {
    ParseTail([]);
    assert "::"[2..] == "" && Join([]) == "";
    hide ParseOctals, Unspecified;
    assert head + Zeros(8 - |head|) + [] == head + Zeros(8 - |head|);
  }

  lemma {:induction false} ColonsLeft(octals: seq<Octal>)
    requires 0 < |octals| < 8
    ensures AfterOctal("::", octals) == (octals, "::")
  {
    assert "::"[1..] == ":" && HexRun(":") == "" && ":" + ":" == "::";
  }

  // ---------------------------------------------------------------- the parser and the printer

  /** The text from position i on. */
  function From(s: string, i: nat): string
    requires i <= |s|
  {
    s[i..]
  }

  /** The number at a position and the position after it. */
  method Strtoul(s: string, pos: nat) returns (v: int, end: nat)
    requires pos <= |s|
    ensures end == pos + |HexRun(From(s, pos))| <= |s|
    ensures v == ToInt(HexValue(HexRun(From(s, pos)), 0))
  {
    var w: nat := 0;
    end := pos;
    ghost var run := HexRun(From(s, pos));
    RunFits(s, pos, pos);
    while end < |s| && IsHex(s[end])
      invariant pos <= end <= |s|
      invariant |run| == end - pos + |HexRun(From(s, end))| && HexValue(run, 0) == HexValue(HexRun(From(s, end)), w)
    {
      RunStep(s, end);
      w := 16 * w + DigitValue(s[end]);
      end := end + 1;
    }
    v := ToInt(w);
  }

  lemma RunFits(s: string, pos: nat, end: nat)
    requires pos <= end <= |s|
    ensures |HexRun(From(s, end))| <= |s| - end
  {
  }

  lemma RunStep(s: string, i: nat)
    requires i < |s| && IsHex(s[i])
    ensures HexRun(From(s, i)) == [s[i]] + HexRun(From(s, i + 1))
    ensures forall w: nat :: HexValue(HexRun(From(s, i)), w) == HexValue(HexRun(From(s, i + 1)), 16 * w + DigitValue(s[i]))
  {
    assert s[i..][1..] == From(s, i + 1);
    var rest := HexRun(From(s, i + 1));
    assert ([s[i]] + rest)[1..] == rest;
  }

  /** One number at position i, which ends at e. */
  lemma {:induction false} ParseAt(s: string, i: nat, octals: seq<Octal>, e: nat, v: int)
    requires i <= |s| && |octals| < 8 && e == i + |HexRun(From(s, i))| <= |s| && v == ToInt(HexValue(HexRun(From(s, i)), 0))
    ensures e == i ==> ParseOctals(From(s, i), octals) == (octals, if octals != [] then ":" + From(s, i) else From(s, i))
    ensures e != i && !(0 <= v <= 0xFFFF) ==> ParseOctals(From(s, i), octals) == (octals, From(s, i))
    ensures e != i && 0 <= v <= 0xFFFF ==> ParseOctals(From(s, i), octals) == AfterOctal(From(s, e), octals + [v])
  {
    hide HexRun, HexValue, ToInt, AfterOctal;
    assert s[i..][e - i..] == From(s, e);
  }

  lemma {:induction false} AfterAt(s: string, e: nat, octals: seq<Octal>)
    requires e <= |s| && 0 < |octals| <= 8
    ensures AfterOctal(From(s, e), octals)
         == if e == |s| || s[e] != ':' || |octals| == 8 then (octals, From(s, e)) else ParseOctals(From(s, e + 1), octals)
  {
    hide ParseOctals;
    if e < |s| {
      assert s[e..][1..] == From(s, e + 1);
    }
  }

  /** What is left to parse, or what has been parsed. */
  function Parsing(s: string, more: bool, end: nat, octals: seq<Octal>): (seq<Octal>, string)
    requires end <= |s| && (more ==> |octals| < 8)
  {
    if more then ParseOctals(From(s, end), octals) else (octals, From(s, end))
  }

  /** One number, with the colon after it if another is to follow. */
  method ReadOctal(s: string, pos: nat, octals: array<int>, k: nat, ghost stored: seq<Octal>)
    returns (more: bool, n: nat, end: nat, ghost now: seq<Octal>)
    requires pos <= |s| && octals.Length == 8 && k == |stored| < 8 && octals[..k] == stored
    requires k > 0 ==> pos > 0 && s[pos - 1] == ':'
    modifies octals
    ensures n == |now| <= 8 && octals[..n] == now && end <= |s|
    ensures more ==> k < n < 8 && end > 0 && s[end - 1] == ':'
    ensures Parsing(s, true, pos, stored) == Parsing(s, more, end, now)
  {
    more, n, end, now := false, k, pos, stored;
    var v, e := Strtoul(s, pos);
    octals[k] := v;
    assert octals[..k] == stored;
    ParseAt(s, pos, stored, e, v);
    if e == pos {
      if k != 0 {
        Unskip(s, pos);
        end := pos - 1;
      }
    } else if 0 <= v <= 0xFFFF {
      now, n, end := stored + [v], k + 1, e;
      assert octals[..n] == now;
      AfterAt(s, e, now);
      if end < |s| && s[end] == ':' && n != 8 {
        more, end := true, end + 1;
      }
    }
  }

  /** Stores the numbers in octals; what lies beyond the k-th is of no meaning. */
  method ReadOctals(s: string, pos: nat, octals: array<int>) returns (k: nat, end: nat)
    requires pos <= |s| && octals.Length == 8
    modifies octals
    ensures k <= 8 && end <= |s| && octals[..k] == ParseOctals(From(s, pos), []).0
    ensures From(s, end) == ParseOctals(From(s, pos), []).1
  {
    k, end := 0, pos;
    ghost var stored: seq<Octal> := [];
    var more := true;
    while more
      invariant k == |stored| <= 8 && octals[..k] == stored && end <= |s|
      invariant more ==> k < 8 && (k > 0 ==> end > 0 && s[end - 1] == ':')
      invariant Parsing(s, true, pos, []) == Parsing(s, more, end, stored)
      decreases more, 8 - k
    {
      more, k, end, stored := ReadOctal(s, end, octals, k, stored);
    }
  }

  lemma UnspecifiedAt(s: string, pos: nat)
    requires pos <= |s| && s[pos..] == Unspecified
    ensures DoTryParse(From(s, pos)) == Some((Zeros(8), "")) && From(s, |s|) == ""
  {
  }

  lemma GapAt(s: string, pos: nat, e: nat, head: seq<Octal>, tail: seq<Octal>, n: nat, m: nat)
    requires pos <= |s| && e + 1 < |s| && s[e] == ':' && s[e + 1] == ':' && s[pos..] != Unspecified
    requires ParseOctals(From(s, pos), []) == (head, From(s, e)) && n == |head|
    requires ParseOctals(From(s, e + 2), []).0 == tail && m == |tail|
    ensures DoTryParse(From(s, pos))
         == if n + m > 8 then None
            else Some((head + Zeros(8 - n - m) + tail, ParseOctals(From(s, e + 2), []).1))
  {
    hide ParseOctals;
    assert "::" <= From(s, e) && From(s, e)[2..] == From(s, e + 2);
  }

  lemma NoGapAt(s: string, pos: nat, e: nat, head: seq<Octal>)
    requires pos <= |s| && e <= |s| && !(e + 1 < |s| && s[e] == ':' && s[e + 1] == ':') && s[pos..] != Unspecified
    requires ParseOctals(From(s, pos), []) == (head, From(s, e))
    ensures DoTryParse(From(s, pos)) == if |head| == 8 then Some((head, From(s, e))) else None
  {
    hide ParseOctals;
  }

  lemma Unskip(s: string, i: nat)
    requires 0 < i <= |s| && s[i - 1] == ':'
    ensures ":" + From(s, i) == From(s, i - 1)
  {
  }

  /** The words of an address and its eight numbers. */
  function Words(octals: seq<Octal>): seq<Word>
    requires |octals| == 8
  {
    seq(4, i requires 0 <= i < 4 => WordOf(octals[2 * i], octals[2 * i + 1]))
  }

  function WordOf(high: Octal, low: Octal): Word {
    high * 0x1_0000 + low
  }

  function Octals(ws: seq<Word>): seq<Octal>
    requires |ws| == 4
  {
    [ws[0] / 0x1_0000, ws[0] % 0x1_0000, ws[1] / 0x1_0000, ws[1] % 0x1_0000,
     ws[2] / 0x1_0000, ws[2] % 0x1_0000, ws[3] / 0x1_0000, ws[3] % 0x1_0000]
  }

  lemma WordsOfOctals(ws: seq<Word>)
    requires |ws| == 4
    ensures Words(Octals(ws)) == ws
  {
    assert forall i :: 0 <= i < 4 ==> Octals(ws)[2 * i] == ws[i] / 0x1_0000 && Octals(ws)[2 * i + 1] == ws[i] % 0x1_0000;
  }

  /** Moves the numbers after the gap to the end, with zeros before them. */
  method Merge(octals: array<int>, numOctals: nat, suffixOctals: array<int>, numSuffixOctals: nat)
    requires octals.Length == suffixOctals.Length == 8 && octals != suffixOctals && numOctals + numSuffixOctals <= 8
    modifies octals
    ensures octals[..] == old(octals[..numOctals]) + Zeros(8 - numOctals - numSuffixOctals) + suffixOctals[..numSuffixOctals]
  {
    for i := numOctals to 8
      invariant octals[..numOctals] == old(octals[..numOctals])
      invariant forall m :: numOctals <= m < i ==>
                  octals[m] == if m < 8 - numSuffixOctals then 0 else suffixOctals[m - 8 + numSuffixOctals]
    {
      var j := i - 8 + numSuffixOctals;
      octals[i] := if j < 0 then 0 else suffixOctals[j];
    }
  }

  method Store(octals: array<int>, all: seq<Octal>, d: array<Word>)
    requires octals.Length == 8 && octals[..] == all && d.Length == 4
    modifies d
    ensures d[..] == Words(all)
  {
    for i := 0 to 4
      invariant forall m :: 0 <= m < i ==> d[m] == WordOf(all[2 * m], all[2 * m + 1])
    {
      assert octals[2 * i] == all[2 * i] && octals[2 * i + 1] == all[2 * i + 1];
      d[i] := WordOf(octals[2 * i], octals[2 * i + 1]);
    }
  }

  /** Reads an address into d; leaves d alone when there is none. */
  method ReadAddress(s: string, pos: nat, d: array<Word>) returns (ok: bool, end: nat)
    requires pos <= |s| && d.Length == 4
    modifies d
    ensures end <= |s| && ok == DoTryParse(From(s, pos)).Some?
    ensures ok ==> DoTryParse(From(s, pos)).value.1 == From(s, end)
    ensures d[..] == if ok then Words(DoTryParse(From(s, pos)).value.0) else old(d[..])
  {
    hide ParseOctals, DoTryParse, ParseAddress, From;
    if s[pos..] == Unspecified {
      ok, end := true, |s|;
      UnspecifiedAt(s, pos);
      d[0], d[1], d[2], d[3] := 0, 0, 0, 0;
      assert d[..] == Words(Zeros(8));
      return;
    }
    var octals := new int[8];
    var numOctals, e := ReadOctals(s, pos, octals);
    ghost var head := ParseOctals(From(s, pos), []).0;
    end := e;
    if e + 1 < |s| && s[e] == ':' && s[e + 1] == ':' {
      var suffixOctals := new int[8];
      var numSuffixOctals;
      numSuffixOctals, end := ReadOctals(s, e + 2, suffixOctals);
      ghost var tail := ParseOctals(From(s, e + 2), []).0;
      GapAt(s, pos, e, head, tail, numOctals, numSuffixOctals);
      if numOctals + numSuffixOctals > 8 {
        ok := false;
        return;
      }
      Merge(octals, numOctals, suffixOctals, numSuffixOctals);
      assert octals[..] == head + Zeros(8 - |head| - |tail|) + tail;
    } else {
      NoGapAt(s, pos, e, head);
      assert octals[..8] == octals[..];
      if numOctals != 8 {
        ok := false;
        return;
      }
    }
    ok := true;
    Store(octals, DoTryParse(From(s, pos)).value.0, d);
  }

  /** The text is an address and nothing else. */
  method TryParseText(s: string, d: array<Word>) returns (ok: bool)
    requires d.Length == 4
    modifies d
    ensures ok == TryParse(s).Some?
    ensures ok ==> d[..] == Words(TryParse(s).value)
    ensures ok ==> forall i :: 0 <= i < 4 ==>
              d[i] as int == TryParse(s).value[2 * i] as int * 0x1_0000 + TryParse(s).value[2 * i + 1] as int
  {
    var end;
    ok, end := ReadAddress(s, 0, d);
    assert From(s, 0) == s;
    assert ok ==> (From(s, end) == "" <==> end == |s|);
    ok := ok && end == |s|;
  }

  method PrintJoin(octals: seq<Octal>) returns (s: string)
    ensures s == Join(octals)
  {
    s := "";
    assert octals[..0] == [] && Join([]) == "";
    hide Join, Hex;
    for i := 0 to |octals|
      invariant s == Join(octals[..i])
    {
      JoinOne(octals[..i], octals[i]);
      assert octals[..i + 1] == octals[..i] + [octals[i]];
      s := s + (if i == 0 then "" else ":") + Hex(octals[i]);
    }
    assert octals[..|octals|] == octals;
  }

  /** The text of an address. */
  method Str(d: array<Word>) returns (s: string)
    requires d.Length == 4
    ensures IsText(Octals(d[..]), s)
  {
    if d[0] == 0 && d[1] == 0 && d[2] == 0 && d[3] == 0 {
      assert Octals(d[..]) == Zeros(8);
      return Unspecified;
    }
    var octals := Octals(d[..]);
    var start, end := FindGap(octals);
    NotAllZeros(d[..], start, end);
    var front := PrintJoin(octals[..start]);
    var back := PrintJoin(octals[end..]);
    s := front + (if start != end then "::" else "") + back;
    assert s == Print(octals, start, end);
  }

  lemma NotAllZeros(ws: seq<Word>, start: nat, end: nat)
    requires |ws| == 4 && !(ws[0] == ws[1] == ws[2] == ws[3] == 0) && IsGap(Octals(ws), start, end)
    ensures Octals(ws) != Zeros(8) && start <= end <= 8 && !(start == 0 && end == 8)
  {
    var i :| 0 <= i < 4 && ws[i] != 0;
    assert Octals(ws)[2 * i] != 0 || Octals(ws)[2 * i + 1] != 0;
  }

  /** Printing an address and parsing the text gives the address. */
  method PrintAndParse(d: array<Word>, d1: array<Word>) returns (ok: bool)
    requires d.Length == d1.Length == 4 && d != d1
    modifies d1
    ensures ok && d1[..] == d[..]
  {
    var s := Str(d);
    RoundTrip(Octals(d[..]), s);
    WordsOfOctals(d[..]);
    ok := TryParseText(s, d1);
  }
}
