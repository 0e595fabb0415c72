/**
  Prefixes of IPv6 addresses (nsc-0.5.3/omnetpp/IPv6Address.cc).  The address is four 32-bit words; masks are built and
  applied word by word, and mean what they should for the 128-bit number.
*/
module IPv6Mask {
  import opened Bits

  type Word = x: nat | x < 0x1_0000_0000

  /** The number that a sequence of words stands for, most significant word first. */
  function Value(ws: seq<Word>): nat {
    if ws == [] then 0 else Shl(ws[0], 32 * (|ws| - 1)) + Value(ws[1..])
  }

  // ---------------------------------------------------------------- the first n bits of some words, word by word

  /** How many low bits of word k are beyond the first n bits. */
  function Beyond(n: nat, k: nat): (s: nat)
    ensures s <= 32
  {
    if n >= 32 * k + 32 then 0 else if n <= 32 * k then 32 else 32 * k + 32 - n
  }

  function KeepHigh(w: Word, s: nat): Word
    requires s <= 32
  {
    Split(w, s);
    w - Low(w, s)
  }

  function KeepLow(w: Word, s: nat): Word
    requires s <= 32
  {
    Split(w, s);
    Low(w, s)
  }

  /** Ones from bit s up. */
  function MaskWord(s: nat): Word
    requires s <= 32
  {
    WordRange();
    Pow2Mono(s, 32);
    0x1_0000_0000 - Pow2(s)
  }

  function Complement(w: Word): Word {
    0xFFFF_FFFF - w
  }

  function Mask(n: nat, m: nat): seq<Word> {
    seq(m, k requires 0 <= k => MaskWord(Beyond(n, k)))
  }

  function Prefix(ws: seq<Word>, n: nat): seq<Word> {
    seq(|ws|, k requires 0 <= k < |ws| => KeepHigh(ws[k], Beyond(n, k)))
  }

  function Suffix(ws: seq<Word>, n: nat): seq<Word> {
    seq(|ws|, k requires 0 <= k < |ws| => KeepLow(ws[k], Beyond(n, k)))
  }

  // ---------------------------------------------------------------- what the words mean

  lemma {:induction false} ValueBound(ws: seq<Word>)
    ensures Value(ws) < Pow2(32 * |ws|)
  {
    if ws != [] {
      var m := 32 * (|ws| - 1);
      ValueBound(ws[1..]);
      WordRange();
      ShlShl(1, 32, m);
      ShlMono(ws[0], Pow2(32), m);
    }
  }

  /** The words after the first see the rest of the prefix. */
  lemma Rest(ws: seq<Word>, n: nat)
    requires ws != []
    ensures Prefix(ws, n)[0] == KeepHigh(ws[0], Beyond(n, 0))
    ensures Suffix(ws, n)[0] == KeepLow(ws[0], Beyond(n, 0))
    ensures Prefix(ws, n)[1..] == Prefix(ws[1..], if n >= 32 then n - 32 else 0)
    ensures Suffix(ws, n)[1..] == Suffix(ws[1..], if n >= 32 then n - 32 else 0)
  {
  }

  lemma {:induction false} ValueCons(w: Word, ws: seq<Word>, all: seq<Word>)
    requires |all| == |ws| + 1 && all[0] == w && all[1..] == ws
    ensures Value(all) == Shl(w, 32 * |ws|) + Value(ws)
  {
  }

  /** What it means to cut the number of the words ws before its last e bits. */
  ghost predicate IsCut(ws: seq<Word>, prefix: seq<Word>, suffix: seq<Word>, e: nat) {
    Value(prefix) == Shl(High(Value(ws), e), e) && Value(suffix) == Low(Value(ws), e)
  }

  lemma CutRest(ws: seq<Word>, n: nat)
    requires ws != [] && 32 <= n <= 32 * |ws|
    requires IsCut(ws[1..], Prefix(ws[1..], n - 32), Suffix(ws[1..], n - 32), 32 * |ws| - n)
    ensures IsCut(ws, Prefix(ws, n), Suffix(ws, n), 32 * |ws| - n)
  {
    var m, p, q := 32 * (|ws| - 1), Prefix(ws, n), Suffix(ws, n);
    Rest(ws, n);
    ValueCons(p[0], p[1..], p);
    ValueCons(q[0], q[1..], q);
    assert p[0] == ws[0] && q[0] == 0;
    ShlOfZero(m);
    CutBelow(ws[0], Value(ws[1..]), m, 32 * |ws| - n);
  }

  lemma CutTop(ws: seq<Word>, n: nat)
    requires ws != [] && n < 32
    requires IsCut(ws[1..], Prefix(ws[1..], 0), Suffix(ws[1..], 0), 32 * (|ws| - 1))
    ensures IsCut(ws, Prefix(ws, n), Suffix(ws, n), 32 * |ws| - n)
  {
    var m, p, q := 32 * (|ws| - 1), Prefix(ws, n), Suffix(ws, n);
    Rest(ws, n);
    ValueBound(ws[1..]);
    HighLowOfSmall(Value(ws[1..]), m);
    ShlOfZero(m);
    CutWithin(ws[0], Value(ws[1..]), m, 32 - n);
    ValueCons(ws[0] - Low(ws[0], 32 - n), p[1..], p);
    ValueCons(Low(ws[0], 32 - n), q[1..], q);
  }

  /** A prefix keeps the number above its last 32 * m - n bits, and a suffix keeps those bits. */
  lemma {:induction false} PrefixValue(ws: seq<Word>, n: nat)
    requires n <= 32 * |ws|
    ensures IsCut(ws, Prefix(ws, n), Suffix(ws, n), 32 * |ws| - n)
  {
    if ws != [] {
      PrefixValue(ws[1..], if n >= 32 then n - 32 else 0);
      if n >= 32 {
        CutRest(ws, n);
      } else {
        CutTop(ws, n);
      }
    }
  }

  lemma {:induction false} ShlOfZero(n: nat)
    ensures Shl(0, n) == 0
  {
    if n > 0 {
      ShlOfZero(n - 1);
    }
  }

  /** The mask is the prefix of a word of ones: 2^128 - 2^(128 - n) for an address. */
  lemma MaskValue(n: nat, m: nat)
    requires n <= 32 * m
    ensures 1 <= Pow2(32 * m - n) <= Pow2(32 * m)
    ensures Value(Mask(n, m)) == Pow2(32 * m) - Pow2(32 * m - n)
  {
    ValueOfOnes(m);
    PrefixOfOnes(n, m);
    PrefixValue(Ones(m), n);
    OnesCut(n, 32 * m - n);
  }

  lemma OnesCut(n: nat, e: nat)
    ensures 1 <= Pow2(e) <= Pow2(n + e)
    ensures Shl(High(Pow2(n + e) - 1, e), e) == Pow2(n + e) - Pow2(e)
  {
    Pow2Mono(e, n + e);
    ShiftOnesRight(n + e, e);
    ShlShl(1, n, e);
    ShlPlus(Pow2(n) - 1, 1, e);
  }

  lemma PrefixOfOnes(n: nat, m: nat)
    ensures Prefix(Ones(m), n) == Mask(n, m)
  {
    forall k | 0 <= k < m
      ensures Prefix(Ones(m), n)[k] == Mask(n, m)[k]
    {
      WordRange();
      LowOfOnes(32, Beyond(n, k));
    }
  }

  function Ones(m: nat): seq<Word> {
    seq(m, _ => 0xFFFF_FFFF)
  }

  lemma {:induction false} ValueOfOnes(m: nat)
    ensures Pow2(32 * m) >= 1 && Value(Ones(m)) == Pow2(32 * m) - 1
  {
    if m > 0 {
      var k := 32 * (m - 1);
      ValueOfOnes(m - 1);
      assert Ones(m)[1..] == Ones(m - 1);
      WordRange();
      ShlShl(1, 32, k);
      ShlPlus(0xFFFF_FFFF, 1, k);
    }
  }

  lemma {:induction false} ValueInjective(a: seq<Word>, b: seq<Word>)
    requires |a| == |b| && Value(a) == Value(b)
    ensures a == b
  {
    if a != [] {
      var m := 32 * (|a| - 1);
      ValueBound(a[1..]);
      ValueBound(b[1..]);
      Parts(a[0], Value(a[1..]), m);
      Parts(b[0], Value(b[1..]), m);
      ValueInjective(a[1..], b[1..]);
      assert a == [a[0]] + a[1..] && b == [b[0]] + b[1..];
    }
  }

  // ---------------------------------------------------------------- the bitwise operators do this

  /** Masking a word keeps its part of the prefix; masking with the complement keeps its part of the suffix. */
  lemma {:induction false} MaskedWord(w: Word, s: nat)
    requires s <= 32
    ensures And(w, MaskWord(s)) == KeepHigh(w, s)
    ensures And(w, Complement(MaskWord(s))) == KeepLow(w, s)
  {
    WordRange();
    AndHighMask(w, 32, s);
    AndLowMask(w, s);
  }

  /** The difference of two words vanishes under the mask exactly when they keep the same prefix. */
  lemma {:induction false} XoredWord(a: Word, b: Word, s: nat)
    requires s <= 32
    ensures And(Xor(a, b), MaskWord(s)) == 0 <==> KeepHigh(a, s) == KeepHigh(b, s)
  {
    WordRange();
    XorUnderHighMask(a, b, 32, s);
    Split(a, s);
    Split(b, s);
    SameHigh(High(a, s), High(b, s), s);
  }

  lemma {:induction false} SameHigh(a: nat, b: nat, s: nat)
    ensures a == b <==> Shl(a, s) == Shl(b, s)
  {
    Pow2Positive(s);
    if a < b {
      ShlMono(a, b, s);
    } else {
      ShlMono(b, a, s);
    }
  }

  function Plus(a: nat, b: nat): nat {
    a + b
  }

  /** A prefix word and a suffix word have no bit in common. */
  lemma JoinedWord(a: Word, b: Word, s: nat)
    requires s <= 32
    ensures Or(KeepHigh(a, s), KeepLow(b, s)) == Plus(KeepHigh(a, s), KeepLow(b, s)) < 0x1_0000_0000
    ensures Or(KeepLow(b, s), KeepHigh(a, s)) == Plus(KeepHigh(a, s), KeepLow(b, s))
  {
    WordRange();
    Split(a, s);
    Split(b, s);
    Parts(High(a, s), 0, s);
    OrAdds(Shl(High(a, s), s), Low(b, s), s);
    JoinBound(a, Low(b, s), s, 32);
  }

  lemma {:induction false} JoinBound(x: nat, l: nat, s: nat, w: nat)
    requires s <= w && x < Pow2(w) && l < Pow2(s)
    ensures Shl(High(x, s), s) + l < Pow2(w)
  {
    var h := High(x, s);
    Split(x, s);
    ShlShl(1, w - s, s);
    if h >= Pow2(w - s) {
      ShlMono(Pow2(w - s), h, s);
    }
    ShlMono(h, Pow2(w - s), s);
  }

  lemma {:induction false} ValueOfSum(a: seq<Word>, b: seq<Word>, c: seq<Word>)
    requires |a| == |b| == |c| && forall k :: 0 <= k < |a| ==> c[k] == Plus(a[k], b[k])
    ensures Value(c) == Value(a) + Value(b)
  {
    if a != [] {
      ValueOfSum(a[1..], b[1..], c[1..]);
      ShlPlus(a[0], b[0], 32 * (|a| - 1));
    }
  }

  // ---------------------------------------------------------------- addresses

  class IPv6Address {
    const d: array<Word>

    ghost predicate Valid() {
      d.Length == 4
    }

    constructor (w0: Word, w1: Word, w2: Word, w3: Word)
      ensures Valid() && fresh(d) && d[..] == [w0, w1, w2, w3]
    {
      d := new Word[4];
      new;
      d[0], d[1], d[2], d[3] := w0, w1, w2, w3;
      assert d[..] == [w0, w1, w2, w3];
    }

    /** Writes the mask of a prefix length. */
    static method ConstructMask(prefixLength: int, mask: array<Word>)
      requires 0 <= prefixLength <= 128 && mask.Length == 4
      modifies mask
      ensures mask[..] == Mask(prefixLength, 4)
    {
      if prefixLength == 0 {
        mask[0], mask[1], mask[2], mask[3] := 0, 0, 0, 0;
      } else if prefixLength <= 32 {
        mask[0], mask[1], mask[2], mask[3] := OnesFrom(32 - prefixLength), 0, 0, 0;
      } else if prefixLength <= 64 {
        mask[0], mask[1], mask[2], mask[3] := 0xFFFF_FFFF, OnesFrom(64 - prefixLength), 0, 0;
      } else if prefixLength <= 96 {
        mask[0], mask[1], mask[2], mask[3] := 0xFFFF_FFFF, 0xFFFF_FFFF, OnesFrom(96 - prefixLength), 0;
      } else {
        mask[0], mask[1], mask[2], mask[3] := 0xFFFF_FFFF, 0xFFFF_FFFF, 0xFFFF_FFFF, OnesFrom(128 - prefixLength);
      }
      MaskCases(prefixLength);
      assert mask[..] == [mask[0], mask[1], mask[2], mask[3]];
    }

    method GetPrefix(prefixLength: int) returns (r: IPv6Address)
      requires Valid() && 0 <= prefixLength <= 128
      ensures r.Valid() && fresh(r) && fresh(r.d) && r.d[..] == Prefix(d[..], prefixLength)
    {
      var mask := new Word[4];
      ConstructMask(prefixLength, mask);
      r := new IPv6Address(AndWord(d[0], mask[0]), AndWord(d[1], mask[1]),
                           AndWord(d[2], mask[2]), AndWord(d[3], mask[3]));
      MaskedIs(d[..], mask[..], prefixLength, r.d[..]);
    }

    method GetSuffix(prefixLength: int) returns (r: IPv6Address)
      requires Valid() && 0 <= prefixLength <= 128
      ensures r.Valid() && fresh(r) && fresh(r.d) && r.d[..] == Suffix(d[..], prefixLength)
    {
      var mask := new Word[4];
      ConstructMask(prefixLength, mask);
      r := new IPv6Address(AndWord(d[0], Complement(mask[0])), AndWord(d[1], Complement(mask[1])),
                           AndWord(d[2], Complement(mask[2])), AndWord(d[3], Complement(mask[3])));
      UnmaskedIs(d[..], mask[..], prefixLength, r.d[..]);
    }

    /** Overwrites the prefix. */
    method SetPrefix(from: IPv6Address, prefixLength: int)
      requires Valid() && from.Valid() && 0 <= prefixLength <= 128
      modifies d
      ensures d[..] == Joined(old(from.d[..]), old(d[..]), prefixLength)
    {
      hide AndWord, OrWord, Mask, Joined;
      var mask := new Word[4];
      ConstructMask(prefixLength, mask);
      ghost var a, b := from.d[..], d[..];
      d[0] := OrWord(AndWord(d[0], Complement(mask[0])), AndWord(from.d[0], mask[0]));
      d[1] := OrWord(AndWord(d[1], Complement(mask[1])), AndWord(from.d[1], mask[1]));
      d[2] := OrWord(AndWord(d[2], Complement(mask[2])), AndWord(from.d[2], mask[2]));
      d[3] := OrWord(AndWord(d[3], Complement(mask[3])), AndWord(from.d[3], mask[3]));
      JoinedIs(a, b, mask[..], prefixLength, d[..]);
    }

    /** Overwrites the suffix. */
    method SetSuffix(from: IPv6Address, prefixLength: int)
      requires Valid() && from.Valid() && 0 <= prefixLength <= 128
      modifies d
      ensures d[..] == Joined(old(d[..]), old(from.d[..]), prefixLength)
    {
      hide AndWord, OrWord, Mask, Joined;
      var mask := new Word[4];
      ConstructMask(prefixLength, mask);
      ghost var a, b := d[..], from.d[..];
      d[0] := OrWord(AndWord(d[0], mask[0]), AndWord(from.d[0], Complement(mask[0])));
      d[1] := OrWord(AndWord(d[1], mask[1]), AndWord(from.d[1], Complement(mask[1])));
      d[2] := OrWord(AndWord(d[2], mask[2]), AndWord(from.d[2], Complement(mask[2])));
      d[3] := OrWord(AndWord(d[3], mask[3]), AndWord(from.d[3], Complement(mask[3])));
      JoinedIs(a, b, mask[..], prefixLength, d[..]);
    }

    /** Whether the addresses agree on their first prefixLength bits. */
    method Matches(prefix: IPv6Address, prefixLength: int) returns (b: bool)
      requires Valid() && prefix.Valid() && 0 <= prefixLength <= 128
      ensures b <==> Prefix(d[..], prefixLength) == Prefix(prefix.d[..], prefixLength)
    {
      var mask := new Word[4];
      ConstructMask(prefixLength, mask);
      var x0, x1 := And(Xor(d[0], prefix.d[0]), mask[0]), And(Xor(d[1], prefix.d[1]), mask[1]);
      var x2, x3 := And(Xor(d[2], prefix.d[2]), mask[2]), And(Xor(d[3], prefix.d[3]), mask[3]);
      b := Or(Or(Or(x0, x1), x2), x3) == 0;
      OrIsZero(x0, x1);
      OrIsZero(Or(x0, x1), x2);
      OrIsZero(Or(Or(x0, x1), x2), x3);
      MatchedIs(d[..], prefix.d[..], mask[..], prefixLength);
    }
  }

  function AndWord(a: Word, b: Word): Word {
    AndBound(a, b);
    And(a, b)
  }

  function OrWord(a: Word, b: Word): Word {
    WordRange();
    OrBound(a, b, 32);
    Or(a, b)
  }

  /** A word of ones shifted left. */
  function OnesFrom(s: nat): (w: Word)
    requires s < 32
    ensures w == MaskWord(s)
  {
    WordRange();
    ShiftOnesLeft(32, s);
    ShiftLeft(32, 0xFFFF_FFFF, s)
  }

  lemma MaskCases(n: nat)
    requires n <= 128
    ensures Mask(n, 4) == (
      if n == 0 then [0, 0, 0, 0]
      else if n <= 32 then [MaskWord(32 - n), 0, 0, 0]
      else if n <= 64 then [0xFFFF_FFFF, MaskWord(64 - n), 0, 0]
      else if n <= 96 then [0xFFFF_FFFF, 0xFFFF_FFFF, MaskWord(96 - n), 0]
      else [0xFFFF_FFFF, 0xFFFF_FFFF, 0xFFFF_FFFF, MaskWord(128 - n)])
  {
    WordRange();
    assert MaskWord(32) == 0 && MaskWord(0) == 0xFFFF_FFFF;
    assert Mask(n, 4) == [MaskWord(Beyond(n, 0)), MaskWord(Beyond(n, 1)), MaskWord(Beyond(n, 2)), MaskWord(Beyond(n, 3))];
  }

  /** Masking every word gives the prefix. */
  lemma MaskedIs(ws: seq<Word>, mask: seq<Word>, n: nat, r: seq<Word>)
    requires |r| == |ws| && mask == Mask(n, |ws|)
    requires forall k :: 0 <= k < |r| ==> r[k] == AndWord(ws[k], mask[k])
    ensures r == Prefix(ws, n)
  {
    forall k | 0 <= k < |r|
      ensures r[k] == Prefix(ws, n)[k]
    {
      MaskedWord(ws[k], Beyond(n, k));
    }
  }

  /** Masking every word with the complement gives the suffix. */
  lemma UnmaskedIs(ws: seq<Word>, mask: seq<Word>, n: nat, r: seq<Word>)
    requires |r| == |ws| && mask == Mask(n, |ws|)
    requires forall k :: 0 <= k < |r| ==> r[k] == AndWord(ws[k], Complement(mask[k]))
    ensures r == Suffix(ws, n)
  {
    forall k | 0 <= k < |r|
      ensures r[k] == Suffix(ws, n)[k]
    {
      MaskedWord(ws[k], Beyond(n, k));
    }
  }

  function JoinWord(a: Word, b: Word, s: nat): Word
    requires s <= 32
  {
    JoinedWord(a, b, s);
    KeepHigh(a, s) + KeepLow(b, s)
  }

  /** The prefix of one address and the suffix of another. */
  function Joined(a: seq<Word>, b: seq<Word>, n: nat): seq<Word>
    requires |a| == |b|
  {
    seq(|a|, k requires 0 <= k < |a| => JoinWord(a[k], b[k], Beyond(n, k)))
  }

  /** Merging two masked addresses, in either order, joins a prefix and a suffix. */
  lemma JoinedIs(a: seq<Word>, b: seq<Word>, mask: seq<Word>, n: nat, r: seq<Word>)
    requires |r| == |a| == |b| && mask == Mask(n, |a|)
    requires forall k :: 0 <= k < |r| ==>
      || r[k] == OrWord(AndWord(a[k], mask[k]), AndWord(b[k], Complement(mask[k])))
      || r[k] == OrWord(AndWord(b[k], Complement(mask[k])), AndWord(a[k], mask[k]))
    ensures r == Joined(a, b, n)
  {
    forall k | 0 <= k < |r|
      ensures r[k] == Joined(a, b, n)[k]
    {
      MaskedWord(a[k], Beyond(n, k));
      MaskedWord(b[k], Beyond(n, k));
      JoinedWord(a[k], b[k], Beyond(n, k));
    }
  }

  /** Every masked difference vanishes exactly when the prefixes are equal. */
  lemma MatchedIs(a: seq<Word>, b: seq<Word>, mask: seq<Word>, n: nat)
    requires |a| == |b| && mask == Mask(n, |a|)
    ensures (forall k :: 0 <= k < |a| ==> And(Xor(a[k], b[k]), mask[k]) == 0) <==> Prefix(a, n) == Prefix(b, n)
  {
    forall k | 0 <= k < |a|
      ensures And(Xor(a[k], b[k]), mask[k]) == 0 <==> Prefix(a, n)[k] == Prefix(b, n)[k]
    {
      XoredWord(a[k], b[k], Beyond(n, k));
    }
  }

  lemma {:induction false} PrefixDecides(a: seq<Word>, b: seq<Word>, n: nat)
    requires |a| == |b| && n <= 32 * |a|
    ensures Prefix(a, n) == Prefix(b, n)
       <==> High(Value(a), 32 * |a| - n) == High(Value(b), 32 * |a| - n)
  {
    var e := 32 * |a| - n;
    PrefixValue(a, n);
    PrefixValue(b, n);
    SameHigh(High(Value(a), e), High(Value(b), e), e);
    if Value(Prefix(a, n)) == Value(Prefix(b, n)) {
      ValueInjective(Prefix(a, n), Prefix(b, n));
    }
  }

  // ---------------------------------------------------------------- what the operations mean for 128-bit numbers

  /** The largest multiple of d up to v. */
  function RoundedDown(v: nat, d: nat): nat
    requires d >= 1
  {
    v - v % d
  }

  function Remainder(v: nat, d: nat): nat
    requires d >= 1
  {
    v % d
  }

  /** Prefix and suffix are what a division by 2^(128 - n) rounds down to and leaves, and add up to the number. */
  lemma {:induction false} PrefixAndSuffix(a: seq<Word>, n: nat, e: nat)
    requires n + e == 32 * |a|
    ensures Pow2(e) >= 1 && Value(Prefix(a, n)) == RoundedDown(Value(a), Pow2(e))
    ensures Value(Suffix(a, n)) == Remainder(Value(a), Pow2(e))
    ensures Value(Prefix(a, n)) + Value(Suffix(a, n)) == Value(a)
  {
    PrefixValue(a, n);
    QuotientAndRemainder(Value(a), e);
  }

  lemma {:induction false} QuotientAndRemainder(v: nat, e: nat)
    ensures Pow2(e) >= 1 && Shl(High(v, e), e) == RoundedDown(v, Pow2(e))
    ensures Low(v, e) == Remainder(v, Pow2(e)) && v == Shl(High(v, e), e) + Low(v, e)
  {
    HighLowAreDivMod(v, e);
    Split(v, e);
  }

  /** Joining takes the prefix of one number and the suffix of the other; the result has both. */
  lemma JoinedValue(a: seq<Word>, b: seq<Word>, n: nat)
    requires |a| == |b| && n <= 32 * |a|
    ensures Value(Joined(a, b, n)) == Value(Prefix(a, n)) + Value(Suffix(b, n))
    ensures Prefix(Joined(a, b, n), n) == Prefix(a, n) && Suffix(Joined(a, b, n), n) == Suffix(b, n)
  {
    var c, e := Joined(a, b, n), 32 * |a| - n;
    forall k | 0 <= k < |c|
      ensures c[k] == Plus(Prefix(a, n)[k], Suffix(b, n)[k])
    {
      JoinedWord(a[k], b[k], Beyond(n, k));
    }
    ValueOfSum(Prefix(a, n), Suffix(b, n), c);
    PrefixValue(a, n);
    PrefixValue(b, n);
    PrefixValue(c, n);
    Split(Value(b), e);
    Parts(High(Value(a), e), Low(Value(b), e), e);
    ValueInjective(Prefix(c, n), Prefix(a, n));
    ValueInjective(Suffix(c, n), Suffix(b, n));
  }

  /** After setting a prefix the address matches it, and its suffix is untouched. */
  lemma {:induction false} SetThenMatches(a: seq<Word>, b: seq<Word>, n: nat)
    requires |a| == |b| && n <= 32 * |a|
    ensures High(Value(Joined(a, b, n)), 32 * |a| - n) == High(Value(a), 32 * |a| - n)
    ensures Low(Value(Joined(a, b, n)), 32 * |a| - n) == Low(Value(b), 32 * |a| - n)
  {
    JoinedValue(a, b, n);
    PrefixDecides(Joined(a, b, n), a, n);
    PrefixValue(Joined(a, b, n), n);
    PrefixValue(b, n);
  }

  /** Addresses that match on a prefix match on every shorter one, and matching on all bits is equality. */
  lemma MatchesShorter(a: seq<Word>, b: seq<Word>, m: nat, n: nat)
    requires |a| == |b| && m <= n <= 32 * |a|
    requires High(Value(a), 32 * |a| - n) == High(Value(b), 32 * |a| - n)
    ensures High(Value(a), 32 * |a| - m) == High(Value(b), 32 * |a| - m)
    ensures n == 32 * |a| ==> a == b
  {
    HighHigh(Value(a), 32 * |a| - n, n - m);
    HighHigh(Value(b), 32 * |a| - n, n - m);
    if n == 32 * |a| {
      ValueInjective(a, b);
    }
  }
}
