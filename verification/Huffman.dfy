/** Canonical Huffman coding as HPACK uses it: the construction of the code
    table from the table of code lengths, the bit strings it assigns, and
    the windowed decoder (section 5.2 and Appendix B of RFC 7541). */
module Huffman {
  import opened Bits

  /** Codes are held in 32-bit words. */
  const WIDTH: nat := 32

  /** How many of the first `n` symbols have length `l`. */
  function Count(lens: seq<nat>, n: nat, l: nat): nat
    requires n <= |lens|
  {
    if n == 0 then 0 else Count(lens, n - 1, l) + (if lens[n - 1] == l then 1 else 0)
  }

  /** The smallest code of `bits` bits in the canonical order. */
  function FirstCode(lens: seq<nat>, bits: nat): nat
    decreases bits, 0
  {
    if bits == 0 then 0 else 2 * NextLengthStart(lens, bits - 1)
  }

  /** One past the last code of `bits` bits. */
  function NextLengthStart(lens: seq<nat>, bits: nat): nat
    decreases bits, 1
  {
    FirstCode(lens, bits) + Count(lens, |lens|, bits)
  }

  /** The canonical code of `sym`: codes of one length are consecutive, in
      symbol order. */
  function Code(lens: seq<nat>, sym: nat): nat
    requires sym < |lens|
  {
    FirstCode(lens, lens[sym]) + Count(lens, sym, lens[sym])
  }

  /** The Kraft sum of the first `n` symbols whose length is at most `max`,
      in units of 2^-WIDTH. */
  function Kraft(lens: seq<nat>, n: nat, max: nat): nat
    requires n <= |lens| && max <= WIDTH
  {
    if n == 0 then 0
    else Kraft(lens, n - 1, max) + (if 1 <= lens[n - 1] <= max then Shl(1, WIDTH - lens[n - 1]) else 0)
  }

  /** Every symbol has a code of 1 to WIDTH bits and the Kraft sum is below one. */
  predicate ValidLengths(lens: seq<nat>) {
    && (forall i :: 0 <= i < |lens| ==> 1 <= lens[i] <= WIDTH)
    && Kraft(lens, |lens|, WIDTH) < Pow2(WIDTH)
  }

  lemma {:induction false} KraftStep(lens: seq<nat>, n: nat, l: nat)
    requires n <= |lens| && 1 <= l <= WIDTH
    ensures Kraft(lens, n, l) == Kraft(lens, n, l - 1) + Shl(Count(lens, n, l), WIDTH - l)
  {
    if n == 0 {
      ShlTimes(0, WIDTH - l);
    } else {
      KraftStep(lens, n - 1, l);
      if lens[n - 1] == l {
        ShlAdd(Count(lens, n - 1, l), 1, WIDTH - l);
      }
    }
  }

  lemma {:induction false} KraftMonotone(lens: seq<nat>, l: nat, m: nat)
    requires l <= m <= WIDTH
    ensures Kraft(lens, |lens|, l) <= Kraft(lens, |lens|, m)
  {
    if l < m {
      KraftMonotone(lens, l, m - 1);
      KraftStep(lens, |lens|, m);
    }
  }

  lemma {:induction false} KraftZero(lens: seq<nat>, n: nat)
    requires n <= |lens|
    ensures Kraft(lens, n, 0) == 0
  {
    if n > 0 {
      KraftZero(lens, n - 1);
    }
  }

  lemma {:induction false} NoZeroLength(lens: seq<nat>, n: nat)
    requires n <= |lens| && forall i :: 0 <= i < n ==> 1 <= lens[i]
    ensures Count(lens, n, 0) == 0
  {
    if n > 0 {
      NoZeroLength(lens, n - 1);
    }
  }

  /** One past the last code of length `l`, as a fraction of the code space,
      is the Kraft sum of the lengths up to `l`. */
  lemma {:induction false} CodesFillKraft(lens: seq<nat>, l: nat)
    requires l <= WIDTH && Count(lens, |lens|, 0) == 0
    ensures Shl(NextLengthStart(lens, l), WIDTH - l) == Kraft(lens, |lens|, l)
  {
    if l == 0 {
      KraftZero(lens, |lens|);
      ShlTimes(0, WIDTH);
    } else {
      CodesFillKraft(lens, l - 1);
      KraftStep(lens, |lens|, l);
      var f := NextLengthStart(lens, l - 1);
      ShlTwice(f, 1, WIDTH - l);
      ShlAdd(2 * f, Count(lens, |lens|, l), WIDTH - l);
    }
  }

  lemma ScaledPow2(l: nat, n: nat)
    ensures Shl(Pow2(l), n) == Pow2(l + n)
  {
    ShlOne(l);
    ShlOne(l + n);
    ShlTwice(1, l, n);
  }

  /** Codes of length `l` stay below the all-ones code of that length. */
  lemma CodeSpace(lens: seq<nat>, l: nat)
    requires ValidLengths(lens) && 1 <= l <= WIDTH
    ensures NextLengthStart(lens, l) < Pow2(l)
  {
    NoZeroLength(lens, |lens|);
    CodesFillKraft(lens, l);
    KraftMonotone(lens, l, WIDTH);
    ScaledPow2(l, WIDTH - l);
    ShlCancel(NextLengthStart(lens, l), Pow2(l), WIDTH - l);
  }

  /** The rank of a symbol among those of its length grows with the symbol. */
  lemma {:induction false} RankBelow(lens: seq<nat>, sym: nat, n: nat)
    requires sym < n <= |lens|
    ensures Count(lens, sym, lens[sym]) < Count(lens, n, lens[sym])
  {
    if sym < n - 1 {
      RankBelow(lens, sym, n - 1);
    }
  }

  /** The canonical codes fit their lengths and are never all ones. */
  lemma CodeFits(lens: seq<nat>, sym: nat)
    requires ValidLengths(lens) && sym < |lens|
    ensures Code(lens, sym) + 1 < Pow2(lens[sym])
  {
    RankBelow(lens, sym, |lens|);
    CodeSpace(lens, lens[sym]);
  }

  /** The bits that stand for `sym`. */
  function CodeBits(lens: seq<nat>, sym: nat): (bs: seq<bool>)
    requires ValidLengths(lens) && sym < |lens|
    ensures |bs| == lens[sym] && Val(bs) == Code(lens, sym)
  {
    CodeFits(lens, sym);
    ToBits(Code(lens, sym), lens[sym])
  }

  /** Longer codes start after every shorter one. */
  lemma {:induction false} FirstCodeAfter(lens: seq<nat>, l: nat, m: nat)
    requires l < m
    ensures Shl(NextLengthStart(lens, l), m - l) <= FirstCode(lens, m)
  {
    if m > l + 1 {
      FirstCodeAfter(lens, l, m - 1);
    }
  }

  lemma LongerCodeIsLater(lens: seq<nat>, a: nat, b: nat)
    requires a < |lens| && b < |lens| && lens[a] < lens[b]
    ensures Shl(Code(lens, a) + 1, lens[b] - lens[a]) <= Code(lens, b)
  {
    RankBelow(lens, a, |lens|);
    ShlMonotone(Code(lens, a) + 1, NextLengthStart(lens, lens[a]), lens[b] - lens[a]);
    FirstCodeAfter(lens, lens[a], lens[b]);
  }

  lemma SameLengthCodesGrow(lens: seq<nat>, a: nat, b: nat)
    requires a < b < |lens| && lens[a] == lens[b]
    ensures Code(lens, a) < Code(lens, b)
  {
    RankBelow(lens, a, b);
  }

  lemma PrefixBounds(a: seq<bool>, b: seq<bool>)
    requires a <= b
    ensures Val(b) < Shl(Val(a) + 1, |b| - |a|)
  {
    var lo := b[|a|..];
    assert b == a + lo;
    ValConcat(a, lo);
    ValBound(lo);
    ShlOne(|lo|);
    ShlAdd(Val(a), 1, |lo|);
  }

  lemma PrefixFreeBits(lens: seq<nat>, a: nat, b: nat, x: seq<bool>, y: seq<bool>)
    requires a < |lens| && b < |lens|
    requires |x| == lens[a] && Val(x) == Code(lens, a)
    requires |y| == lens[b] && Val(y) == Code(lens, b)
    requires x <= y
    ensures a == b
  {
    if |x| < |y| {
      PrefixBounds(x, y);
      LongerCodeIsLater(lens, a, b);
      assert false;
    } else {
      assert x == y;
      if a < b {
        SameLengthCodesGrow(lens, a, b);
        assert false;
      } else if b < a {
        SameLengthCodesGrow(lens, b, a);
        assert false;
      }
    }
  }

  /** No code is a prefix of another symbol's code. */
  lemma PrefixFree(lens: seq<nat>, a: nat, b: nat)
    requires ValidLengths(lens) && a < |lens| && b < |lens|
    requires CodeBits(lens, a) <= CodeBits(lens, b)
    ensures a == b
  {
    PrefixFreeBits(lens, a, b, CodeBits(lens, a), CodeBits(lens, b));
  }

  /** A zero-length entry shifts the whole construction: then no code fits. */
  lemma ZeroLengthBreaksFit(lens: seq<nat>, sym: nat)
    requires 0 in lens && sym < |lens| && lens[sym] > 0
    ensures Code(lens, sym) >= Pow2(lens[sym])
  {
    var z :| 0 <= z < |lens| && lens[z] == 0;
    RankBelow(lens, z, |lens|);
    FirstCodeAfter(lens, 0, lens[sym]);
    ShlMonotone(1, Count(lens, |lens|, 0), lens[sym]);
    ShlOne(lens[sym]);
  }

  datatype HuffmanEntry = HuffmanEntry(code: nat, len: nat)

  /** `table` holds the canonical codes of the first `n` symbols of `lens`. */
  predicate IsTableOfFirst(table: seq<HuffmanEntry>, lens: seq<nat>, n: nat)
    requires n <= |lens|
  {
    && |table| == n
    && forall i :: 0 <= i < n ==> table[i] == HuffmanEntry(Code(lens, i), lens[i])
  }

  /** `table` is the canonical table of `lens`. */
  predicate IsTableOf(table: seq<HuffmanEntry>, lens: seq<nat>) {
    IsTableOfFirst(table, lens, |lens|)
  }

  /** The value kept by a 32-bit counter. */
  function Wrap32(x: nat): (r: nat)
    ensures x < 0x1_0000_0000 ==> r == x
  {
    x % 0x1_0000_0000
  }

  /** The per-length counters after the first `n` symbols got their codes. */
  ghost predicate Assigned(lens: seq<nat>, next: seq<int>, n: nat)
    requires n <= |lens|
  {
    |next| == WIDTH + 1 && forall l :: 1 <= l <= WIDTH ==> next[l] == FirstCode(lens, l) + Count(lens, n, l)
  }

  lemma AssignNext(lens: seq<nat>, next: seq<int>, n: nat)
    requires ValidLengths(lens) && n < |lens| && Assigned(lens, next, n)
    ensures next[lens[n]] == Code(lens, n)
    ensures Assigned(lens, next[lens[n] := Wrap32(next[lens[n]] + 1)], n + 1)
  {
    CodeBelow32(lens, n);
  }

  /** The three counting loops that fill the table, with the counters'
      16-bit and 32-bit wrap-around written out. */
  method InitHuffmanTable(lens: seq<nat>) returns (table: seq<HuffmanEntry>)
    requires ValidLengths(lens) && |lens| < 0x1_0000
    ensures IsTableOf(table, lens)
  {
    var blCount := CountLengths(lens);
    var nextCode := FirstCodes(lens, blCount);
    table := AssignCodes(lens, nextCode);
  }

  method AssignCodes(lens: seq<nat>, nextCode: array<int>) returns (table: seq<HuffmanEntry>)
    requires ValidLengths(lens) && Assigned(lens, nextCode[..], 0)
    modifies nextCode
    ensures IsTableOf(table, lens)
  {
    table := [];
    for i := 0 to |lens|
      invariant Assigned(lens, nextCode[..], i) && IsTableOfFirst(table, lens, i)
    {
      ghost var next := nextCode[..];
      AssignNext(lens, next, i);
      var len := lens[i];
      var code := nextCode[len];
      table := table + [HuffmanEntry(code, len)];
      nextCode[len] := Wrap32(code + 1);
      assert nextCode[..] == next[len := Wrap32(code + 1)];
    }
  }

  method CountLengths(lens: seq<nat>) returns (blCount: array<int>)
    requires |lens| < 0x1_0000 && forall i :: 0 <= i < |lens| ==> lens[i] <= WIDTH
    ensures fresh(blCount) && blCount.Length == 33
    ensures forall l :: 0 <= l <= WIDTH ==> blCount[l] == Count(lens, |lens|, l)
  {
    blCount := new int[33](_ => 0);
    for i := 0 to |lens|
      invariant forall l :: 0 <= l <= WIDTH ==> blCount[l] == Count(lens, i, l) <= i
    {
      blCount[lens[i]] := (blCount[lens[i]] + 1) % 0x1_0000;
    }
  }

  method FirstCodes(lens: seq<nat>, blCount: array<int>) returns (nextCode: array<int>)
    requires ValidLengths(lens) && blCount.Length == 33
    requires forall l :: 0 <= l <= WIDTH ==> blCount[l] == Count(lens, |lens|, l)
    ensures fresh(nextCode) && Assigned(lens, nextCode[..], 0)
  {
    var code := 0;
    nextCode := new int[33](_ => 0);
    for bits := 1 to 33
      invariant code == FirstCode(lens, bits - 1)
      invariant forall l :: 1 <= l < bits ==> nextCode[l] == FirstCode(lens, l)
    {
      FirstCodeBelow32(lens, bits);
      code := Wrap32((code + blCount[bits - 1]) * 2);
      nextCode[bits] := code;
    }
  }

  lemma FirstCodeBelow32(lens: seq<nat>, bits: nat)
    requires ValidLengths(lens) && 1 <= bits <= WIDTH
    ensures FirstCode(lens, bits) < 0x1_0000_0000
  {
    CodeSpace(lens, bits);
    Pow2Monotone(bits, WIDTH);
    Pow2Constants();
  }

  lemma CodeBelow32(lens: seq<nat>, sym: nat)
    requires ValidLengths(lens) && sym < |lens|
    ensures Code(lens, sym) + 1 < 0x1_0000_0000
  {
    CodeFits(lens, sym);
    Pow2Monotone(lens[sym], WIDTH);
    Pow2Constants();
  }
}
