/** Bytes, bit strings and powers of two, shared by the binary codecs. */
module Bits {

  type byte = x: int | 0 <= x < 256

  type Bytes = seq<byte>

  const TWO32: int := 0x1_0000_0000
  const TWO64: int := 0x1_0000_0000_0000_0000

  function Pow2(n: nat): (p: nat)
    ensures p >= 1
  {
    if n == 0 then 1 else 2 * Pow2(n - 1)
  }

  lemma {:induction false} Pow2Add(a: nat, b: nat)
    ensures Pow2(a + b) == Pow2(a) * Pow2(b)
  {
    if b > 0 {
      Pow2Add(a, b - 1);
    }
  }

  lemma {:induction false} Pow2Monotone(a: nat, b: nat)
    requires a <= b
    ensures Pow2(a) <= Pow2(b)
  {
    if a < b {
      Pow2Monotone(a, b - 1);
    }
  }

  lemma Pow2Constants()
    ensures Pow2(4) == 16 && Pow2(5) == 32 && Pow2(6) == 64 && Pow2(7) == 128 && Pow2(8) == 256
    ensures Pow2(16) == 0x1_0000 && Pow2(24) == 0x100_0000 && Pow2(32) == 0x1_0000_0000
  {
    assert Pow2(8) == 256;
    Pow2Add(8, 8);
    Pow2Add(16, 8);
    Pow2Add(16, 16);
  }

  /** The number a bit string spells, most significant bit first. */
  function Val(bs: seq<bool>): nat
  {
    if bs == [] then 0
    else 2 * Val(bs[..|bs| - 1]) + (if bs[|bs| - 1] then 1 else 0)
  }

  lemma {:induction false} ValBound(bs: seq<bool>)
    ensures Val(bs) < Pow2(|bs|)
  {
    if bs != [] {
      ValBound(bs[..|bs| - 1]);
    }
  }

  /** `x` shifted left by `n`: x * 2^n, kept linear for the solver. */
  function Shl(x: nat, n: nat): nat
    decreases n
  {
    if n == 0 then x else 2 * Shl(x, n - 1)
  }

  lemma {:induction false} ShlAdd(x: nat, y: nat, n: nat)
    ensures Shl(x + y, n) == Shl(x, n) + Shl(y, n)
  {
    if n > 0 {
      ShlAdd(x, y, n - 1);
    }
  }

  lemma {:induction false} ShlTwice(x: nat, m: nat, n: nat)
    ensures Shl(Shl(x, m), n) == Shl(x, m + n)
  {
    if n > 0 {
      ShlTwice(x, m, n - 1);
    }
  }

  lemma {:induction false} ShlOne(n: nat)
    ensures Shl(1, n) == Pow2(n)
  {
    if n > 0 {
      ShlOne(n - 1);
    }
  }

  lemma {:induction false} ShlMonotone(x: nat, y: nat, n: nat)
    requires x <= y
    ensures Shl(x, n) <= Shl(y, n)
  {
    if n > 0 {
      ShlMonotone(x, y, n - 1);
    }
  }

  lemma ShlCancel(x: nat, y: nat, n: nat)
    requires Shl(x, n) < Shl(y, n)
    ensures x < y
  {
    if y <= x {
      ShlMonotone(y, x, n);
      assert false;
    }
  }

  lemma {:induction false} ShlTimes(x: nat, n: nat)
    ensures Shl(x, n) == x * Pow2(n)
  {
    if n > 0 {
      ShlTimes(x, n - 1);
      DoubledProduct(x, Pow2(n - 1));
    }
  }

  lemma DoubledProduct(x: int, y: int)
    ensures x * (2 * y) == 2 * (x * y)
  {
  }

  lemma {:induction false} ValConcat(a: seq<bool>, b: seq<bool>)
    ensures Val(a + b) == Shl(Val(a), |b|) + Val(b)
  {
    if b == [] {
      assert a + b == a;
    } else {
      var b' := b[..|b| - 1];
      ValConcat(a, b');
      assert (a + b)[..|a + b| - 1] == a + b';
    }
  }

  lemma {:induction false} ValInjective(a: seq<bool>, b: seq<bool>)
    requires |a| == |b|
    requires Val(a) == Val(b)
    ensures a == b
  {
    if a != [] {
      var a', b' := a[..|a| - 1], b[..|b| - 1];
      ValInjective(a', b');
      assert a == a' + [a[|a| - 1]];
      assert b == b' + [b[|b| - 1]];
    }
  }

  /** The `n`-bit string that spells `v`. */
  function ToBits(v: nat, n: nat): (bs: seq<bool>)
    requires v < Pow2(n)
    ensures |bs| == n && Val(bs) == v
    decreases n
  {
    if n == 0 then [] else
      var front := ToBits(v / 2, n - 1);
      var bs := front + [v % 2 == 1];
      assert bs[..|bs| - 1] == front;
      bs
  }

  function Ones(n: nat): (bs: seq<bool>)
    ensures |bs| == n && forall i :: 0 <= i < n ==> bs[i]
  {
    seq(n, i => true)
  }

  lemma {:induction false} OnesVal(n: nat)
    ensures Val(Ones(n)) == Pow2(n) - 1
  {
    if n > 0 {
      OnesVal(n - 1);
      assert Ones(n)[..n - 1] == Ones(n - 1);
    }
  }

  function ByteBits(b: byte): (bs: seq<bool>)
    ensures |bs| == 8 && Val(bs) == b
  {
    ToBits(b, 8)
  }

  /** The bits of a byte string, in transmission order. */
  function BytesBits(s: Bytes): (bs: seq<bool>)
    ensures |bs| == 8 * |s|
  {
    if s == [] then [] else ByteBits(s[0]) + BytesBits(s[1..])
  }

  lemma MulAtLeast(k: int, d: int)
    requires k >= 1 && d >= 1
    ensures k * d >= d
  {
  }

  lemma DivModUnique(x: int, d: int, q: int, r: int)
    requires d > 0 && 0 <= r < d && x == q * d + r
    ensures x / d == q && x % d == r
  {
    var q', r' := x / d, x % d;
    if q < q' {
      MulAtLeast(q' - q, d);
      assert false;
    } else if q' < q {
      MulAtLeast(q - q', d);
      assert false;
    }
  }

  /** Splitting a register at a bit position: the part above it, masked to
      `hi`, and the part below it. */
  lemma SplitRegister(x: nat, n: nat, hi: nat, lo: nat, vh: nat, vl: nat)
    requires vh < hi && vl < lo && n == hi * lo && n > 0
    requires x % n == vh * lo + vl
    ensures (x / lo) % hi == vh && x % lo == vl
  {
    var q := x / n;
    assert x == q * n + (vh * lo + vl);
    assert q * n == (q * hi) * lo;
    assert x == (q * hi + vh) * lo + vl;
    DivModUnique(x, lo, q * hi + vh, vl);
    DivModUnique(q * hi + vh, hi, q, vh);
  }

  /** The window `w` sits in the low end of the register `buf`. */
  predicate Holds(buf: nat, w: seq<bool>) {
    buf % Pow2(|w|) == Val(w)
  }

  /** A window of bits held in the low end of a register: its first `l`
      bits are read with one shift and one mask. */
  lemma WindowPeek(buf: nat, w: seq<bool>, l: nat)
    requires l <= |w| && Holds(buf, w)
    ensures (buf / Pow2(|w| - l)) % Pow2(l) == Val(w[..l])
    ensures Holds(buf, w[l..])
  {
    var hi, lo := w[..l], w[l..];
    assert w == hi + lo;
    ValConcat(hi, lo);
    ShlTimes(Val(hi), |lo|);
    ValBound(hi);
    ValBound(lo);
    Pow2Add(l, |lo|);
    SplitRegister(buf, Pow2(|w|), Pow2(l), Pow2(|lo|), Val(hi), Val(lo));
  }

  /** Shifting left by eight inside a register of size `r`, a multiple of
      `p * 256`, then reading modulo `p * 256`. */
  lemma ShiftIn(x: nat, p: nat, p8: nat, k: nat, r: nat, v: nat, b: byte)
    requires p >= 1 && r > 0 && p8 == p * 256 && r == p8 * k
    requires x % p == v
    ensures (x * 256 % r + b) % p8 == v * 256 + b
  {
    var q := x / p;
    var m := x * 256 / r;
    assert x * 256 == q * p8 + v * 256;
    var low := x * 256 % r;
    assert low == x * 256 - m * r;
    assert m * r == (m * k) * p8;
    assert low + b == (q - m * k) * p8 + (v * 256 + b);
    DivModUnique(low + b, p8, q - m * k, v * 256 + b);
  }

  const REGISTER: nat := 0x1_0000_0000_0000_0000

  /** A 64-bit register shifted left by eight with a byte put in. */
  function ShiftByteIn(buf: nat, b: byte): nat {
    buf * 256 % REGISTER + b
  }

  lemma RegisterSize(n: nat)
    requires n <= 32
    ensures Pow2(n + 8) == Pow2(n) * 256
    ensures REGISTER == Pow2(n + 8) * Pow2(56 - n)
  {
    Pow2Constants();
    Pow2Add(32, 32);
    Pow2Add(n, 8);
    Pow2Add(n + 8, 56 - n);
  }

  lemma ValAppendByte(w: seq<bool>, b: byte)
    ensures Val(w + ByteBits(b)) == Val(w) * 256 + b
  {
    ValConcat(w, ByteBits(b));
    ShlTimes(Val(w), 8);
    assert Pow2(8) == 256;
  }

  lemma RefillRegister(buf: nat, n: nat, v: nat, b: byte)
    requires n <= 32
    requires buf % Pow2(n) == v
    ensures (ShiftByteIn(buf, b)) % Pow2(n + 8) == v * 256 + b
  {
    RegisterSize(n);
    ShiftIn(buf, Pow2(n), Pow2(n + 8), Pow2(56 - n), REGISTER, v, b);
  }

  /** Shifting a byte into a 64-bit register appends its bits to the window. */
  lemma WindowRefill(buf: nat, w: seq<bool>, b: byte)
    requires |w| <= 32 && Holds(buf, w)
    ensures Holds(ShiftByteIn(buf, b), w + ByteBits(b))
  {
    RefillRegister(buf, |w|, Val(w), b);
    ValAppendByte(w, b);
  }

  /** The low `bits` bits of the register `buf`, as a bit string. */
  function Window(buf: nat, bits: nat): (w: seq<bool>)
    ensures |w| == bits && Holds(buf, w)
  {
    ToBits(buf % Pow2(bits), bits)
  }

  lemma WindowIs(buf: nat, w: seq<bool>)
    requires Holds(buf, w)
    ensures Window(buf, |w|) == w
  {
    ValInjective(Window(buf, |w|), w);
  }

  /** The refill step of a bit reader: shift left by eight, add a byte. */
  lemma WindowGrows(buf: nat, bits: nat, b: byte)
    requires bits <= 32
    ensures Window(ShiftByteIn(buf, b), bits + 8) == Window(buf, bits) + ByteBits(b)
  {
    WindowRefill(buf, Window(buf, bits), b);
    WindowIs(ShiftByteIn(buf, b), Window(buf, bits) + ByteBits(b));
  }

  /** The peek of a bit reader: the first `l` bits of the window spell `v`
      exactly when shift and mask give `v`; dropping them keeps the rest. */
  lemma WindowSplits(buf: nat, bits: nat, l: nat)
    requires l <= bits
    ensures (buf / Pow2(bits - l)) % Pow2(l) == Val(Window(buf, bits)[..l])
    ensures Window(buf, bits - l) == Window(buf, bits)[l..]
  {
    WindowPeek(buf, Window(buf, bits), l);
    WindowIs(buf, Window(buf, bits)[l..]);
  }
}
