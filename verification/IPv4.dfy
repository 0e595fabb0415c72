/**
  IPv4 addresses (nsc-0.5.3/omnetpp/IPAddress.cc): prefixes bit by bit and byte by byte, and the dotted-decimal text.
*/
module IPv4 {
  import opened Wrappers
  import opened Bits
  import opened Decimals

  type Byte = x: nat | x < 256

  /** The number that four words of w bits stand for. */
  function Value4(bs: seq<Byte>, w: nat): nat
    requires |bs| == 4
  {
    Shl(bs[0], 3 * w) + (Shl(bs[1], 2 * w) + (Shl(bs[2], w) + bs[3]))
  }

  // ---------------------------------------------------------------- keeping a prefix

  lemma {:induction false} Bounds(b1: nat, b2: nat, b3: nat, w: nat)
    requires b1 < Pow2(w) && b2 < Pow2(w) && b3 < Pow2(w)
    ensures Shl(b2, w) + b3 < Pow2(2 * w)
    ensures Shl(b1, 2 * w) + (Shl(b2, w) + b3) < Pow2(3 * w)
  {
    ShlMono(b2, Pow2(w), w);
    ShlShl(1, w, w);
    ShlMono(b1, Pow2(w), 2 * w);
    ShlShl(1, w, 2 * w);
  }

  /** A byte without its s low bits. */
  function Keep(b: nat, s: nat): nat {
    Split(b, s);
    b - Low(b, s)
  }

  /** Cutting bits off a number of four words: off the word they end in, with the words below gone. */
  lemma CutIn0(b0: nat, v1: nat, m: nat, s: nat)
    requires v1 < Pow2(m)
    ensures Shl(High(Shl(b0, m) + v1, m + s), m + s) == Shl(Keep(b0, s), m)
  {
    CutWithin(b0, v1, m, s);
  }

  lemma CutIn1(b0: nat, b1: nat, v2: nat, m0: nat, m1: nat, s: nat)
    requires v2 < Pow2(m1) && m1 + s <= m0
    ensures Shl(High(Shl(b0, m0) + (Shl(b1, m1) + v2), m1 + s), m1 + s) == Shl(b0, m0) + Shl(Keep(b1, s), m1)
  {
    hide Shl, High, Low, Pow2;
    CutBelow(b0, Shl(b1, m1) + v2, m0, m1 + s);
    CutWithin(b1, v2, m1, s);
  }

  lemma CutIn2(b0: nat, b1: nat, b2: nat, v3: nat, m0: nat, m1: nat, m2: nat, s: nat)
    requires v3 < Pow2(m2) && m2 + s <= m1 <= m0
    ensures Shl(High(Shl(b0, m0) + (Shl(b1, m1) + (Shl(b2, m2) + v3)), m2 + s), m2 + s)
         == Shl(b0, m0) + (Shl(b1, m1) + Shl(Keep(b2, s), m2))
  {
    hide Shl, High, Low, Pow2;
    CutBelow(b0, Shl(b1, m1) + (Shl(b2, m2) + v3), m0, m2 + s);
    CutIn1(b1, b2, v3, m1, m2, s);
  }

  lemma CutIn3(b0: nat, b1: nat, b2: nat, b3: nat, m0: nat, m1: nat, m2: nat, s: nat)
    requires s <= m2 <= m1 <= m0
    ensures Shl(High(Shl(b0, m0) + (Shl(b1, m1) + (Shl(b2, m2) + b3)), s), s)
         == Shl(b0, m0) + (Shl(b1, m1) + (Shl(b2, m2) + Keep(b3, s)))
  {
    hide Shl, High, Low, Pow2;
    CutBelow(b0, Shl(b1, m1) + (Shl(b2, m2) + b3), m0, s);
    CutBelow(b1, Shl(b2, m2) + b3, m1, s);
    CutBelow(b2, b3, m2, s);
    Split(b3, s);
  }

  /** The last bits of a 32-bit number, all but the first n, cut off. */
  function Prefix32(v: nat, n: nat): nat
    requires n <= 32
  {
    Shl(High(v, 32 - n), 32 - n)
  }

  predicate SamePrefix(a: nat, b: nat, n: nat)
    requires n <= 32
  {
    High(a, 32 - n) == High(b, 32 - n)
  }

  lemma SamePrefixIff(a: nat, b: nat, n: nat)
    requires n <= 32
    ensures SamePrefix(a, b, n) <==> Prefix32(a, n) == Prefix32(b, n)
  {
    var e := 32 - n;
    hide High, Low;
    if High(a, e) < High(b, e) {
      ShlMono(High(a, e), High(b, e), e);
    } else {
      ShlMono(High(b, e), High(a, e), e);
    }
    Pow2Positive(e);
  }

  /** The first n bits are kept, and the others are 0. */
  lemma {:induction false} PrefixKept(v: nat, n: nat)
    requires n <= 32
    ensures SamePrefix(Prefix32(v, n), v, n) && Low(Prefix32(v, n), 32 - n) == 0
  {
    var e := 32 - n;
    Pow2Positive(e);
    Parts(High(v, e), 0, e);
  }

  lemma ShorterPrefix(a: nat, b: nat, m: nat, n: nat)
    requires m <= n <= 32 && SamePrefix(a, b, n)
    ensures SamePrefix(a, b, m)
  {
    HighHigh(a, 32 - n, n - m);
    HighHigh(b, 32 - n, n - m);
  }

  /** The number of leading bits in which two numbers agree. */
  ghost predicate Agree(a: nat, b: nat, m: nat) {
    m <= 32 && SamePrefix(a, b, m) && (m < 32 ==> !SamePrefix(a, b, m + 1))
  }

  /** Agreeing on a prefix is agreeing on at least so many bits. */
  lemma PrefixIffAgree(a: nat, b: nat, m: nat, n: nat)
    requires Agree(a, b, m) && n <= 32
    ensures SamePrefix(a, b, n) <==> n <= m
  {
    if n <= m {
      ShorterPrefix(a, b, n, m);
    } else if SamePrefix(a, b, n) {
      ShorterPrefix(a, b, m + 1, n);
    }
  }

  lemma ValueBound4(bs: seq<Byte>)
    requires |bs| == 4
    ensures Value4(bs, 8) < 0x1_0000_0000
  {
    var w := 8;
    assert Pow2(w) == 256;
    Bounded4(bs, w);
    WordRange();
  }

  lemma Bounded4(bs: seq<Byte>, w: nat)
    requires |bs| == 4 && Pow2(w) == 256
    ensures Value4(bs, w) < Pow2(4 * w)
  {
    Bounds(bs[1], bs[2], bs[3], w);
    ShlMono(bs[0], Pow2(w), 3 * w);
    ShlShl(1, w, 3 * w);
  }

  /** All bits that a shift to the right leaves zero. */
  lemma MaskIs(n: nat)
    requires n <= 32
    ensures WORD - 1 - High(WORD - 1, n) == Pow2(32) - Pow2(32 - n) && High(WORD - 1, n) < WORD
  {
    WordRange();
    Pow2Mono(32 - n, 32);
    ShiftOnesRight(32, n);
  }

  const WORD := 0x1_0000_0000

  lemma {:induction false} MaskedSame(a: nat, b: nat, n: nat)
    requires n <= 32 && a < WORD && b < WORD
    ensures High(WORD - 1, n) < WORD
    ensures var mask := WORD - 1 - High(WORD - 1, n); And(a, mask) == And(b, mask) <==> SamePrefix(a, b, n)
  {
    WordRange();
    MaskIs(n);
    AndHighMask(a, 32, 32 - n);
    AndHighMask(b, 32, 32 - n);
    Split(a, 32 - n);
    Split(b, 32 - n);
    SamePrefixIff(a, b, n);
  }

  // ---------------------------------------------------------------- bits from the top

  lemma {:induction false} XorPrefix(a: nat, b: nat, s: nat)
    requires s <= 32
    ensures High(Xor(a, b), s) == 0 <==> SamePrefix(a, b, 32 - s)
  {
    XorHigh(a, b, s);
    XorIsZero(High(a, s), High(b, s));
  }

  lemma NextBit(x: nat, i: nat)
    ensures High(x, i) == 2 * High(x, i + 1) + High(x, i) % 2
  {
    HighHigh(x, i, 1);
    assert High(High(x, i), 1) == High(High(x, i) / 2, 0);
  }

  lemma {:induction false} TopIsZero(a: nat, b: nat)
    requires a < WORD && b < WORD
    ensures High(Xor(a, b), 32) == 0
  {
    WordRange();
    XorBound(a, b, 32);
    HighLowOfSmall(Xor(a, b), 32);
  }

  // ---------------------------------------------------------------- bytes

  lemma KeptByte(b: Byte, r: nat)
    requires r <= 8
    ensures High(255, r) < WORD && And(b, WORD - 1 - High(255, r)) == Keep(b, 8 - r) < 256
  {
    WordRange();
    assert Pow2(8) == 256;
    ShiftOnesRight(8, r);
    Pow2Mono(8 - r, 32);
    AndHighMask(b, 32, 8 - r);
  }

  /** The bytes of a number with its last bits cut off. */
  lemma {:induction false} KeptBytes(bs: seq<Byte>, ks: seq<Byte>, w: nat, len: nat, s: nat)
    requires |bs| == |ks| == 4 && len < 4 && s <= w && Pow2(w) == 256 && 4 * w == 32
    requires ks[..len] == bs[..len] && ks[len] == Keep(bs[len], s) && forall i :: len < i < 4 ==> ks[i] == 0
    ensures Value4(ks, w) == Shl(High(Value4(bs, w), (3 - len) * w + s), (3 - len) * w + s)
  {
    Bounds(bs[1], bs[2], bs[3], w);
    ShlZero(w);
    ShlZero(2 * w);
    assert forall i :: 0 <= i < len ==> ks[i] == ks[..len][i] == bs[i];
    hide Shl, High, Low, Pow2, Keep, Value4;
    ValueIs(bs, w);
    ValueIs(ks, w);
    if len == 0 {
      CutIn0(bs[0], Shl(bs[1], 2 * w) + (Shl(bs[2], w) + bs[3]), 3 * w, s);
    } else if len == 1 {
      CutIn1(bs[0], bs[1], Shl(bs[2], w) + bs[3], 3 * w, 2 * w, s);
    } else if len == 2 {
      CutIn2(bs[0], bs[1], bs[2], bs[3], 3 * w, 2 * w, w, s);
    } else {
      CutIn3(bs[0], bs[1], bs[2], bs[3], 3 * w, 2 * w, w, s);
    }
  }

  lemma {:induction false} ValueIs(bs: seq<Byte>, w: nat)
    requires |bs| == 4
    ensures Value4(bs, w) == Shl(bs[0], 3 * w) + (Shl(bs[1], 2 * w) + (Shl(bs[2], w) + bs[3]))
  {
  }

  lemma {:induction false} ShlZero(n: nat)
    ensures Shl(0, n) == 0
  {
    if n > 0 {
      ShlZero(n - 1);
    }
  }

  // ---------------------------------------------------------------- addresses

  class IPAddress {
    const addr: array<Byte>

    ghost predicate Valid() {
      addr.Length == 4
    }

    ghost function Int(): nat
      requires Valid()
      reads addr
    {
      Value4(addr[..], 8)
    }

    constructor (i0: Byte, i1: Byte, i2: Byte, i3: Byte)
      ensures Valid() && fresh(addr) && addr[..] == [i0, i1, i2, i3]
    {
      addr := new Byte[4];
      new;
      addr[0], addr[1], addr[2], addr[3] := i0, i1, i2, i3;
      assert addr[..] == [i0, i1, i2, i3];
    }

    method GetInt() returns (v: nat)
      requires Valid()
      ensures v == Int() < WORD
    {
      hide Shl;
      v := Shl(addr[0], 24) + (Shl(addr[1], 16) + (Shl(addr[2], 8) + addr[3]));
      ValueBound4(addr[..]);
    }

    /** Whether the first numbits bits are the same; all of them when numbits is out of range. */
    method PrefixMatches(toCmp: IPAddress, numbits: int) returns (b: bool)
      requires Valid() && toCmp.Valid()
      ensures b <==> SamePrefix(Int(), toCmp.Int(), if numbits < 0 then 0 else if numbits > 32 then 32 else numbits)
    {
      hide Shl, And;
      var addr1 := GetInt();
      var addr2 := toCmp.GetInt();
      SmallSame(addr1, addr2);
      if numbits < 1 {
        return true;
      }
      if numbits > 31 {
        return addr1 == addr2;
      }
      MaskedSame(addr1, addr2, numbits);
      var mask := WORD - 1 - High(WORD - 1, numbits);
      b := And(addr1, mask) == And(addr2, mask);
    }

    /** How many bits from the top are the same. */
    method NumMatchingPrefixBits(toCmp: IPAddress) returns (m: nat)
      requires Valid() && toCmp.Valid()
      ensures Agree(Int(), toCmp.Int(), m)
    {
      hide Shl, And, High, Xor;
      var addr1 := GetInt();
      var addr2 := toCmp.GetInt();
      var res := Xor(addr1, addr2);
      TopIsZero(addr1, addr2);
      XorPrefix(addr1, addr2, 32);
      var i := 31;
      while i >= 0
        invariant -1 <= i <= 31 && High(res, i + 1) == 0
      {
        XorPrefix(addr1, addr2, i + 1);
        XorPrefix(addr1, addr2, i);
        AndBit(res, i);
        NextBit(res, i);
        if And(res, Shl(1, i)) != 0 {
          return 31 - i;
        }
        i := i - 1;
      }
      XorPrefix(addr1, addr2, 0);
      m := 32;
    }

    /** Clears all bits after the first n. */
    method KeepFirstBits(n: nat)
      requires Valid()
      modifies addr
      ensures Int() == if n <= 31 then Prefix32(old(Int()), n) else old(Int())
      ensures n <= 31 ==> SamePrefix(Int(), old(Int()), n) && Low(Int(), 32 - n) == 0
    {
      if n > 31 {
        return;
      }
      ghost var bs := addr[..];
      var lenBytes := n / 8;
      var r := n - lenBytes * 8;
      KeptByte(addr[lenBytes], r);
      var mask := WORD - 1 - High(255, r);
      addr[lenBytes] := And(addr[lenBytes], mask);
      for i := lenBytes + 1 to 4
        invariant forall j :: 0 <= j < lenBytes ==> addr[j] == bs[j]
        invariant addr[lenBytes] == Keep(bs[lenBytes], 8 - r)
        invariant forall j :: lenBytes < j < i ==> addr[j] == 0
      {
        addr[i] := 0;
      }
      assert Pow2(8) == 256;
      KeptBytes(bs, addr[..], 8, lenBytes, 8 - r);
      PrefixKept(Value4(bs, 8), n);
    }
  }

  lemma SmallSame(a: nat, b: nat)
    requires a < WORD && b < WORD
    ensures SamePrefix(a, b, 0) && (SamePrefix(a, b, 32) <==> a == b)
  {
    WordRange();
    HighLowOfSmall(a, 32);
    HighLowOfSmall(b, 32);
  }

  /** The three ways to compare prefixes agree. */
  method ThreeWays(a: IPAddress, b: IPAddress, n: nat) returns (matches: bool, matching: nat)
    requires a.Valid() && b.Valid() && a.addr != b.addr && n <= 32
    modifies a.addr, b.addr
    ensures matches <==> n <= matching
    ensures matches <==> a.addr[..] == b.addr[..]
  {
    matches := a.PrefixMatches(b, n);
    matching := a.NumMatchingPrefixBits(b);
    ghost var x, y := a.Int(), b.Int();
    PrefixIffAgree(x, y, matching, n);
    SamePrefixIff(x, y, n);
    a.KeepFirstBits(n);
    b.KeepFirstBits(n);
    SameBytes(a.addr[..], b.addr[..]);
  }

  lemma SameBytes(a: seq<Byte>, b: seq<Byte>)
    requires |a| == |b| == 4
    ensures Value4(a, 8) == Value4(b, 8) <==> a == b
  {
    assert Pow2(8) == 256;
    if Value4(a, 8) == Value4(b, 8) {
      SameWords(a, b, 8);
    }
  }

  lemma SameWords(a: seq<Byte>, b: seq<Byte>, w: nat)
    requires |a| == |b| == 4 && Pow2(w) == 256 && Value4(a, w) == Value4(b, w)
    ensures a == b
  {
    Bounds(a[1], a[2], a[3], w);
    Bounds(b[1], b[2], b[3], w);
    hide Shl, High, Low;
    Parts(a[0], Shl(a[1], 2 * w) + (Shl(a[2], w) + a[3]), 3 * w);
    Parts(b[0], Shl(b[1], 2 * w) + (Shl(b[2], w) + b[3]), 3 * w);
    Parts(a[1], Shl(a[2], w) + a[3], 2 * w);
    Parts(b[1], Shl(b[2], w) + b[3], 2 * w);
    Parts(a[2], a[3], w);
    Parts(b[2], b[3], w);
  }

  // ---------------------------------------------------------------- dotted-decimal text

  function DigitRun(s: string): (run: string)
    ensures run <= s && AllDigits(run)
  {
    if s == "" || !IsDigit(s[0]) then "" else [s[0]] + DigitRun(s[1..])
  }

  /** An int of 32 bits. */
  function Wrap(v: int): int {
    var w := v % 0x1_0000_0000;
    if w < 0x8000_0000 then w else w - 0x1_0000_0000
  }

  /** The int that the parser makes of some more digits after those worth acc. */
  function IntOf(run: string, acc: int): int
    requires AllDigits(run)
  {
    if run == "" then acc else IntOf(run[1..], Wrap(10 * acc + (run[0] as int - '0' as int)))
  }

  /** What an unsigned char keeps of it. */
  function ByteOf(v: int): Byte {
    v % 256
  }

  /** The numbers from the i-th on. */
  function ParseFrom(s: string, i: nat): Option<seq<Byte>>
    requires i < 4
    decreases 4 - i
  {
    var run := DigitRun(s);
    if !IsNumber(run) then None else
    var b, rest := NumberOf(run), s[|run|..];
    if rest == "" then (if i == 3 then Some([b]) else None)
    else if rest[0] != '.' || i == 3 then None
    else
      match ParseFrom(rest[1..], i + 1)
      case None => None
      case Some(bs) => Some([b] + bs)
  }

  const Unspecified := "<unspec>"

  function ParseIPAddress(s: string): Option<seq<Byte>> {
    if s == Unspecified then Some([0, 0, 0, 0]) else ParseFrom(s, 0)
  }

  // ---------------------------------------------------------------- what is an address

  function JoinDots(parts: seq<string>): string {
    if parts == [] then "" else if |parts| == 1 then parts[0] else parts[0] + ("." + JoinDots(parts[1..]))
  }

  /** As an int of 32 bits, the number is at most 255; it may be negative. */
  predicate IsSmall(v: nat) {
    v % 0x1_0000_0000 <= 255 || v % 0x1_0000_0000 >= 0x8000_0000
  }

  /** A non-empty run of digits that the parser takes for at most 255. */
  predicate IsNumber(part: string) {
    part != "" && AllDigits(part) && IsSmall(Numeral(part, 0))
  }

  function NumberOf(part: string): Byte
    requires IsNumber(part)
  {
    Numeral(part, 0) % 256
  }

  lemma WrapTwice(v: int, c: int)
    ensures Wrap(10 * Wrap(v) + c) == Wrap(10 * v + c)
  {
    var q := (v - Wrap(v)) / 0x1_0000_0000;
    assert v == Wrap(v) + 0x1_0000_0000 * q;
    assert 10 * v + c == 10 * Wrap(v) + c + 0x1_0000_0000 * (10 * q);
    SameRemainder(10 * Wrap(v) + c, 10 * q);
  }

  lemma {:induction false} SameRemainder(v: int, k: int)
    ensures (v + 0x1_0000_0000 * k) % 0x1_0000_0000 == v % 0x1_0000_0000
    decreases if k < 0 then -k else k
  {
    if k > 0 {
      SameRemainder(v, k - 1);
    } else if k < 0 {
      SameRemainder(v, k + 1);
    }
  }

  /** The int that the parser makes of some digits is their number, wrapped around. */
  lemma {:induction false} IntIsWrapped(run: string, acc: nat)
    requires AllDigits(run)
    ensures IntOf(run, Wrap(acc)) == Wrap(Numeral(run, acc))
  {
    if run != "" {
      WrapTwice(acc, run[0] as int - '0' as int);
      IntIsWrapped(run[1..], 10 * acc + (run[0] as int - '0' as int));
    }
  }

  lemma {:induction false} WrappedByte(v: nat)
    ensures Wrap(0) == 0 && (Wrap(v) <= 255 <==> IsSmall(v)) && ByteOf(Wrap(v)) == v % 256
  {
    var q, w := v / 0x1_0000_0000, v % 0x1_0000_0000;
    assert v == w + 256 * (0x100_0000 * q);
    ByteAlike(w, 0x100_0000 * q);
    ByteAlike(w, -0x100_0000);
  }

  lemma {:induction false} ByteAlike(w: int, k: int)
    ensures (w + 256 * k) % 256 == w % 256
  {
  }

  /** So it is at most 255 exactly for the numbers that are small, and its last byte is that of the number. */
  lemma {:induction false} SmallIff(run: string)
    requires AllDigits(run)
    ensures IntOf(run, 0) <= 255 <==> IsSmall(Numeral(run, 0))
    ensures ByteOf(IntOf(run, 0)) == Numeral(run, 0) % 256
  {
    WrappedByte(Numeral(run, 0));
    hide Wrap, ByteOf, IsSmall;
    IntIsWrapped(run, 0);
  }

  function BytesOf(parts: seq<string>): seq<Byte>
    requires forall i :: 0 <= i < |parts| ==> IsNumber(parts[i])
  {
    seq(|parts|, i requires 0 <= i < |parts| => NumberOf(parts[i]))
  }

  ghost predicate AreParts(s: string, n: nat, bs: seq<Byte>, parts: seq<string>) {
    && |parts| == n && (forall i :: 0 <= i < n ==> IsNumber(parts[i])) && s == JoinDots(parts) && bs == BytesOf(parts)
  }

  lemma {:induction false} RunOf(run: string, rest: string)
    requires AllDigits(run) && (rest == "" || !IsDigit(rest[0]))
    ensures DigitRun(run + rest) == run
  {
    if run == "" {
      assert run + rest == rest;
    } else {
      RunOf(run[1..], rest);
      assert (run + rest)[1..] == run[1..] + rest;
    }
  }

  /** Numbers joined by dots are parsed. */
  lemma {:induction false} PartsParse(parts: seq<string>, i: nat)
    requires i < 4 && |parts| == 4 - i && forall j :: 0 <= j < |parts| ==> IsNumber(parts[j])
    ensures ParseFrom(JoinDots(parts), i) == Some(BytesOf(parts))
    decreases 4 - i
  {
    hide DigitRun, IsNumber, NumberOf, AllDigits;
    var rest := if i == 3 then "" else "." + JoinDots(parts[1..]);
    assert JoinDots(parts) == parts[0] + rest;
    NumberIsRun(parts[0], rest);
    assert (parts[0] + rest)[|parts[0]|..] == rest;
    if i < 3 {
      assert rest[1..] == JoinDots(parts[1..]);
      PartsParse(parts[1..], i + 1);
      assert BytesOf(parts) == [NumberOf(parts[0])] + BytesOf(parts[1..]);
    } else {
      assert BytesOf(parts) == [NumberOf(parts[0])];
    }
  }

  lemma {:induction false} NumberIsRun(part: string, rest: string)
    requires IsNumber(part) && (rest == "" || !IsDigit(rest[0]))
    ensures DigitRun(part + rest) == part
  {
    RunOf(part, rest);
  }

  lemma FirstPart(s: string, i: nat) returns (run: string, tail: string)
    requires i < 4 && ParseFrom(s, i).Some?
    ensures IsNumber(run) && s == run + if i == 3 then "" else "." + tail
    ensures i == 3 ==> ParseFrom(s, i).value == [NumberOf(run)]
    ensures i < 3 ==> ParseFrom(tail, i + 1).Some?
                      && ParseFrom(s, i).value == [NumberOf(run)] + ParseFrom(tail, i + 1).value
  {
    hide DigitRun, IsNumber, NumberOf, AllDigits;
    run := DigitRun(s);
    var rest := s[|run|..];
    assert s == run + rest;
    tail := if i == 3 then "" else rest[1..];
    assert i < 3 ==> rest == "." + tail;
  }

  /** And nothing else is. */
  lemma {:induction false} ParsedHasParts(s: string, i: nat) returns (parts: seq<string>)
    requires i < 4 && ParseFrom(s, i).Some?
    ensures AreParts(s, 4 - i, ParseFrom(s, i).value, parts)
    decreases 4 - i
  {
    hide ParseFrom, IsNumber, NumberOf;
    var run, tail := FirstPart(s, i);
    if i == 3 {
      parts := [run];
      assert BytesOf(parts) == [NumberOf(run)];
    } else {
      var more := ParsedHasParts(tail, i + 1);
      parts := [run] + more;
      assert parts[1..] == more;
      assert BytesOf(parts) == [NumberOf(run)] + BytesOf(more);
    }
  }

  /** A text is an address exactly if it is four numbers joined by dots, or says that there is none. */
  lemma ParsedIff(s: string, bs: seq<Byte>)
    ensures ParseIPAddress(s) == Some(bs)
       <==> (if s == "<unspec>" then bs == [0, 0, 0, 0] else exists parts :: AreParts(s, 4, bs, parts))
  {
    hide ParseFrom, JoinDots, IsNumber, NumberOf;
    if s != Unspecified {
      if ParseFrom(s, 0).Some? {
        var parts := ParsedHasParts(s, 0);
      }
      forall parts | AreParts(s, 4, bs, parts)
        ensures ParseFrom(s, 0) == Some(bs)
      {
        PartsParse(parts, 0);
      }
    }
  }

  // ---------------------------------------------------------------- round trip

  lemma {:induction false} DecimalOfByte(b: Byte)
    ensures IsNumber(Decimal(b)) && NumberOf(Decimal(b)) == b
  {
    NumeralOfDecimal(b);
  }

  /** The text of an address. */
  function Str(bs: seq<Byte>): string
    requires |bs| == 4
  {
    if bs == [0, 0, 0, 0] then Unspecified
    else JoinDots([Decimal(bs[0]), Decimal(bs[1]), Decimal(bs[2]), Decimal(bs[3])])
  }

  lemma RoundTrip(bs: seq<Byte>)
    requires |bs| == 4
    ensures ParseIPAddress(Str(bs)) == Some(bs)
    ensures Str(bs) == "<unspec>" <==> bs == [0, 0, 0, 0]
  {
    if bs != [0, 0, 0, 0] {
      var parts := [Decimal(bs[0]), Decimal(bs[1]), Decimal(bs[2]), Decimal(bs[3])];
      forall i | 0 <= i < 4
        ensures IsNumber(parts[i]) && NumberOf(parts[i]) == bs[i]
      {
        DecimalOfByte(bs[i]);
      }
      PartsParse(parts, 0);
      assert BytesOf(parts) == bs;
      assert JoinDots(parts)[0] == parts[0][0];
    }
  }

  lemma {:induction false} PartsAccepted(parts: seq<string>)
    requires |parts| == 4 && forall i :: 0 <= i < 4 ==> IsNumber(parts[i])
    ensures ParseIPAddress(JoinDots(parts)) == Some(BytesOf(parts))
  {
    PartsParse(parts, 0);
    assert parts[0] != "" && IsDigit(parts[0][0]);
    assert JoinDots(parts)[0] == parts[0][0];
  }

  function DecimalsOf(ns: seq<nat>): seq<string> {
    seq(|ns|, i requires 0 <= i < |ns| => Decimal(ns[i]))
  }

  /** Numbers that wrap around to small ones are accepted in their place. */
  lemma WrappedAccepted(ns: seq<nat>)
    requires |ns| == 4 && forall i :: 0 <= i < 4 ==> IsSmall(ns[i])
    ensures ParseIPAddress(JoinDots(DecimalsOf(ns))) == Some(seq(4, i requires 0 <= i < 4 => ns[i] % 256))
  {
    var parts := DecimalsOf(ns);
    forall i | 0 <= i < 4
      ensures IsNumber(parts[i]) && NumberOf(parts[i]) == ns[i] % 256
    {
      NumeralOfDecimal(ns[i]);
    }
    hide IsNumber, NumberOf, Decimal, ParseIPAddress, JoinDots, IsSmall, DecimalsOf;
    PartsAccepted(parts);
    assert BytesOf(parts) == seq(4, i requires 0 <= i < 4 => ns[i] % 256);
  }

  lemma {:induction false} FourJoined(parts: seq<string>)
    requires |parts| == 4
    ensures JoinDots(parts) == parts[0] + ("." + (parts[1] + ("." + (parts[2] + ("." + parts[3])))))
  {
    var rest := parts[1..];
    var last := rest[1..];
    assert rest[0] == parts[1] && last[0] == parts[2] && last[1..] == [parts[3]];
    assert JoinDots(last) == parts[2] + ("." + parts[3]);
    assert JoinDots(rest) == parts[1] + ("." + JoinDots(last));
  }

  const TooLarge: seq<nat> := [4294967296, 0, 0, 1]

  lemma TooLargeDecimals()
    ensures DecimalsOf(TooLarge) == ["4294967296", "0", "0", "1"]
  {
    assert Decimal(429) == "429";
    assert Decimal(4294967) == "4294967";
    assert Decimal(4294967296) == "4294967296";
  }

  /** 4294967296.0.0.1 is taken for 0.0.0.1. */
  lemma TooLargeAccepted()
    ensures ParseIPAddress("4294967296.0.0.1") == Some([0, 0, 0, 1])
  {
    TooLargeDecimals();
    TooLargeBytes();
    hide *;
    FourJoined(["4294967296", "0", "0", "1"]);
    WrappedAccepted(TooLarge);
    assert "4294967296" + ("." + ("0" + ("." + ("0" + ("." + "1"))))) == "4294967296.0.0.1";
  }

  lemma TooLargeBytes()
    ensures |TooLarge| == 4 && forall i :: 0 <= i < 4 ==> IsSmall(TooLarge[i])
    ensures seq(4, i requires 0 <= i < 4 => TooLarge[i] % 256) == [0, 0, 0, 1]
  {
  }

  // ---------------------------------------------------------------- the parser

  function From(s: string, i: nat): string
    requires i <= |s|
  {
    s[i..]
  }

  function Behind(bs: seq<Byte>, r: Option<seq<Byte>>): Option<seq<Byte>> {
    match r
    case None => None
    case Some(more) => Some(bs + more)
  }

  lemma {:induction false} RunStep(s: string, i: nat, num: int)
    requires i < |s| && IsDigit(s[i])
    ensures DigitRun(From(s, i)) == [s[i]] + DigitRun(From(s, i + 1))
    ensures IntOf(DigitRun(From(s, i)), num)
         == IntOf(DigitRun(From(s, i + 1)), Wrap(10 * num + (s[i] as int - '0' as int)))
  {
    assert From(s, i)[1..] == From(s, i + 1);
    var rest := DigitRun(From(s, i + 1));
    assert ([s[i]] + rest)[1..] == rest;
  }

  method ReadNumber(s: string, pos: nat) returns (num: int, end: nat)
    requires pos <= |s|
    ensures end == pos + |DigitRun(From(s, pos))| <= |s| && num == IntOf(DigitRun(From(s, pos)), 0)
  {
    hide DigitRun, IntOf, From, Wrap;
    num, end := 0, pos;
    ghost var run := DigitRun(From(s, pos));
    while end < |s| && IsDigit(s[end])
      invariant pos <= end <= |s|
      invariant |run| == end - pos + |DigitRun(From(s, end))| && IntOf(run, 0) == IntOf(DigitRun(From(s, end)), num)
    {
      RunStep(s, end, num);
      num := Wrap(10 * num + (s[end] as int - '0' as int));
      end := end + 1;
    }
    RunEnds(s, end, num);
  }

  lemma {:induction false} RunEnds(s: string, i: nat, num: int)
    requires i <= |s| && (i == |s| || !IsDigit(s[i]))
    ensures DigitRun(From(s, i)) == "" && IntOf(DigitRun(From(s, i)), num) == num
  {
  }

  /** What the parser does with the number at a position. */
  lemma {:induction false} NumberAt(s: string, pos: nat, i: nat, end: nat, num: int, before: seq<Byte>)
    requires pos <= |s| && i < 4 && end == pos + |DigitRun(From(s, pos))| <= |s|
    requires num == IntOf(DigitRun(From(s, pos)), 0)
    ensures end == pos || num > 255 ==> ParseFrom(From(s, pos), i) == None
    ensures end == pos || num > 255
         || Behind(before, ParseFrom(From(s, pos), i))
           == (if end == |s| then (if i == 3 then Some(before + [ByteOf(num)]) else None)
               else if s[end] != '.' || i == 3 then None
               else Behind(before + [ByteOf(num)], ParseFrom(From(s, end + 1), i + 1)))
  {
    SmallIff(DigitRun(From(s, pos)));
    hide DigitRun, IntOf, ByteOf, Wrap, Numeral, IsSmall;
    assert From(s, pos)[end - pos..] == From(s, end);
    if end < |s| && i < 3 {
      assert From(s, end)[1..] == From(s, end + 1);
      var r := ParseFrom(From(s, end + 1), i + 1);
      if r.Some? {
        assert before + ([ByteOf(num)] + r.value) == before + [ByteOf(num)] + r.value;
      }
    }
  }

  /** Parses the whole text. */
  method ParseText(text: string, tobytes: array<Byte>) returns (ok: bool)
    requires tobytes.Length == 4
    modifies tobytes
    ensures ok == ParseIPAddress(text).Some?
    ensures ok ==> tobytes[..] == ParseIPAddress(text).value
  {
    hide ParseFrom, DigitRun, IntOf, From, Behind;
    if text == Unspecified {
      tobytes[0], tobytes[1], tobytes[2], tobytes[3] := 0, 0, 0, 0;
      return true;
    }
    var s, i := 0, 0;
    ghost var result := ParseFrom(text, 0);
    AllOfIt(text);
    while true
      invariant 0 <= s <= |text| && 0 <= i < 4
      invariant result == Behind(tobytes[..i], ParseFrom(From(text, s), i))
      decreases 4 - i
    {
      var num, end := ReadNumber(text, s);
      ghost var before := tobytes[..i];
      NumberAt(text, s, i, end, num, before);
      BehindNone(before);
      if end == s || num > 255 {
        return false;
      }
      tobytes[i] := ByteOf(num);
      assert tobytes[..i + 1] == before + [ByteOf(num)];
      i := i + 1;
      if end == |text| {
        assert i == 4 ==> tobytes[..4] == tobytes[..];
        return i == 4;
      }
      if text[end] != '.' || i == 4 {
        return false;
      }
      s := end + 1;
    }
  }

  lemma {:induction false} AllOfIt(text: string)
    ensures From(text, 0) == text && ParseFrom(text, 0) == Behind([], ParseFrom(From(text, 0), 0))
  {
    var r := ParseFrom(text, 0);
    assert text[0..] == text;
    if r.Some? {
      assert [] + r.value == r.value;
    }
  }

  lemma BehindNone(bs: seq<Byte>)
    ensures Behind(bs, None) == None
  {
  }
}
