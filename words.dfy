/**
 * Java `int` values as 32-bit two's-complement words, with the two bit
 * operations the node's position accessors use: `& mask` and the arithmetic
 * right shift `>>`. This bit-level reading is the reference against which the
 * arithmetic definitions in module Position are proved.
 */
module Words {

  /** Java's `int`. */
  newtype int32 = x: int | -0x8000_0000 <= x < 0x8000_0000

  function Pow2(k: nat): (p: nat)
    ensures p > 0
  {
    if k == 0 then 1 else 2 * Pow2(k - 1)
  }

  /** The `width` low-order bits of `n` in two's complement, least significant first. */
  function ToBits(n: int, width: nat): (bits: seq<bool>)
    ensures |bits| == width
    decreases width
  {
    if width == 0 then [] else [n % 2 == 1] + ToBits(n / 2, width - 1)
  }

  /** `n` shifted right by `k` places, rounding toward minus infinity. */
  function Halve(n: int, k: nat): int
    decreases k
  {
    if k == 0 then n else Halve(n / 2, k - 1)
  }

  /** The bits read as an unsigned binary number. */
  function Unsigned(bits: seq<bool>): (v: nat)
    ensures v < Pow2(|bits|)
  {
    if bits == [] then 0 else (if bits[0] then 1 else 0) + 2 * Unsigned(bits[1..])
  }

  /** The bits read as a two's-complement number: the top bit weighs -2^(w-1). */
  function Signed(bits: seq<bool>): int
  {
    if bits == [] then 0 else Unsigned(bits) - (if bits[|bits| - 1] then Pow2(|bits|) else 0)
  }

  /** The word of an `int`. */
  function Word(x: int32): (w: seq<bool>)
    ensures |w| == 32
  {
    ToBits(x as int, 32)
  }

  /** Java's `a & b` on two words. */
  function And(a: seq<bool>, b: seq<bool>): (r: seq<bool>)
    requires |a| == |b|
    ensures |r| == |a|
    ensures forall i :: 0 <= i < |r| ==> r[i] == (a[i] && b[i])
  {
    if a == [] then [] else [a[0] && b[0]] + And(a[1..], b[1..])
  }

  function Repeat(b: bool, n: nat): (r: seq<bool>)
    ensures |r| == n
    ensures forall i :: 0 <= i < n ==> r[i] == b
  {
    if n == 0 then [] else [b] + Repeat(b, n - 1)
  }

  /** Java's `w >> k`: drops the `k` low bits and copies the sign bit into the `k` high ones. */
  function ShiftRight(w: seq<bool>, k: nat): (r: seq<bool>)
    requires 0 < |w| && k <= |w|
    ensures |r| == |w|
  {
    w[k..] + Repeat(w[|w| - 1], k)
  }

  /** Nothing is lost: `n` is its `k` low bits plus its shifted-out high part. */
  lemma {:induction false} LowBitsAndHalve(n: int, k: nat)
    ensures n == Halve(n, k) * Pow2(k) + Unsigned(ToBits(n, k))
    decreases k
  {
    if k > 0 {
      var h := n / 2;
      LowBitsAndHalve(h, k - 1);
      var q, p, u := Halve(h, k - 1), Pow2(k - 1), Unsigned(ToBits(h, k - 1));
      assert ToBits(n, k)[1..] == ToBits(h, k - 1);
      assert Unsigned(ToBits(n, k)) == n % 2 + 2 * u;
      HalvingStep(n, h, q, p, u);
    }
  }

  /** One more low bit: if h = q·p + u and n = 2h + n mod 2, then n = q·2p + (n mod 2 + 2u). */
  lemma HalvingStep(n: int, h: int, q: int, p: int, u: int)
    requires h == n / 2 && h == q * p + u
    ensures n == q * (2 * p) + (n % 2 + 2 * u)
  {
    assert q * (2 * p) == 2 * (q * p);
  }

  /** The first `k` bits of a wider word are the `k`-bit word, and the rest are the word of the shifted value. */
  lemma {:induction false} ToBitsSplit(n: int, k: nat, width: nat)
    requires k <= width
    ensures ToBits(n, width) == ToBits(n, k) + ToBits(Halve(n, k), width - k)
    decreases k
  {
    if k > 0 {
      ToBitsSplit(n / 2, k - 1, width - 1);
    }
  }

  /** Reading a concatenation: the high part weighs 2^|low|. */
  lemma {:induction false} UnsignedAppend(lo: seq<bool>, hi: seq<bool>)
    ensures Unsigned(lo + hi) == Unsigned(lo) + Pow2(|lo|) * Unsigned(hi)
  {
    if lo == [] {
      assert lo + hi == hi;
    } else {
      var rest := lo[1..];
      assert (lo + hi)[1..] == rest + hi;
      UnsignedAppend(rest, hi);
      var b := if lo[0] then 1 else 0;
      var p, u := Pow2(|rest|), Unsigned(hi);
      var big := Pow2(|lo|);
      assert big == 2 * p;
      calc {
        Unsigned(lo) + big * u;
        { DoubleProduct(p, u); }
        b + 2 * Unsigned(rest) + 2 * (p * u);
        b + 2 * Unsigned(rest + hi);
        { assert (lo + hi)[0] == lo[0]; }
        Unsigned(lo + hi);
      }
    }
  }

  lemma DoubleProduct(p: int, u: int)
    ensures (2 * p) * u == 2 * (p * u)
  {
  }

  lemma {:induction false} UnsignedRepeat(b: bool, n: nat)
    ensures Unsigned(Repeat(b, n)) == if b then Pow2(n) - 1 else 0
  {
    if n > 0 {
      assert Repeat(b, n)[1..] == Repeat(b, n - 1);
      UnsignedRepeat(b, n - 1);
    }
  }

  lemma Pow2Values()
    ensures Pow2(15) == 0x8000 && Pow2(16) == 0x1_0000
  {
    assert Pow2(15) == 0x8000;
    assert Pow2(16) == 0x1_0000;
  }

  /** The 16-bit word of `n` is its remainder by 2^16 and the shifted-out part its floor quotient. */
  lemma Split16(n: int)
    ensures Unsigned(ToBits(n, 16)) == n % 0x1_0000
    ensures Halve(n, 16) == n / 0x1_0000
  {
    var h, u := Halve(n, 16), Unsigned(ToBits(n, 16));
    assert n == h * 0x1_0000 + u && u < 0x1_0000 by {
      LowBitsAndHalve(n, 16);
      Pow2Values();
    }
    DivMod(n, 0x1_0000, h, u);
  }

  /** The same for 15 bits. */
  lemma Split15(n: int)
    ensures Unsigned(ToBits(n, 15)) == n % 0x8000
    ensures Halve(n, 15) == n / 0x8000
  {
    var h, u := Halve(n, 15), Unsigned(ToBits(n, 15));
    assert n == h * 0x8000 + u && u < 0x8000 by {
      LowBitsAndHalve(n, 15);
      Pow2Values();
    }
    DivMod(n, 0x8000, h, u);
  }

  /** Quotient and remainder by 2^15 or 2^16 are the only such pair. */
  lemma DivMod(n: int, d: int, h: int, u: int)
    requires d == 0x8000 || d == 0x1_0000
    requires n == h * d + u && 0 <= u < d
    ensures h == n / d && u == n % d
  {
    if d == 0x8000 {
      assert n == h * 0x8000 + u;
    } else {
      assert n == h * 0x1_0000 + u;
    }
  }

  lemma SignedFromParts(bits: seq<bool>, s: int)
    requires -0x8000 <= s < 0x8000 && |bits| == 16
    requires Unsigned(bits) == s % 0x1_0000 && bits[15] == (s < 0)
    ensures Signed(bits) == s
  {
    Pow2Values();
  }

  /** A 16-bit word read as two's complement gives back any value in the signed 16-bit range. */
  lemma SignedRoundTrip16(s: int)
    requires -0x8000 <= s < 0x8000
    ensures Signed(ToBits(s, 16)) == s
  {
    Split16(s);
    TopBit16(s);
    SignedFromParts(ToBits(s, 16), s);
  }

  /** Bit 15 of a value in the signed 16-bit range is its sign. */
  lemma TopBit16(s: int)
    requires -0x8000 <= s < 0x8000
    ensures ToBits(s, 16)[15] == (s < 0)
  {
    ToBitsSplit(s, 15, 16);
    Split15(s);
    var top := Halve(s, 15);
    assert top == if s < 0 then -1 else 0;
    assert ToBits(top, 1) == [top % 2 == 1];
  }

  /** `x & 0xffff` keeps exactly the low 16 bits of the word: its value is `x mod 2^16`. */
  lemma MaskLow16(x: int32)
    ensures Signed(And(Word(x), Word(0xffff))) == x as int % 0x1_0000
  {
    var low := ToBits(x as int, 16);
    MaskWord();
    ToBitsSplit(x as int, 16, 32);
    AndLowMask(Word(x));
    assert Word(x)[..16] == low;
    SignedZeroExtend(low, 16);
    Split16(x as int);
  }

  /** `x >> 16` is the floor of `x / 2^16`. */
  lemma ShiftRight16(x: int32)
    ensures Signed(ShiftRight(Word(x), 16)) == x as int / 0x1_0000
  {
    var h := Halve(x as int, 16);
    Split16(x as int);
    ToBitsSplit(x as int, 16, 32);
    var high := ToBits(h, 16);
    assert Word(x)[16..] == high;
    assert ShiftRight(Word(x), 16) == high + Repeat(high[15], 16);
    SignExtend16(high);
    SignedRoundTrip16(h);
  }

  /** The word of the mask 0xffff: sixteen ones, then sixteen zeros. */
  lemma MaskWord()
    ensures Word(0xffff) == Repeat(true, 16) + Repeat(false, 16)
  {
    ToBitsSplit(0xffff, 16, 32);
    LowMaskBits();
    HighBitsClear(0xffff, 16);
  }

  lemma LowMaskBits()
    ensures ToBits(0xffff, 16) == Repeat(true, 16)
  {
    OnesBits(16);
    Pow2Values();
  }

  /** A value below 2^16 has nothing above its low 16 bits. */
  lemma HighBitsClear(n: int, k: nat)
    requires 0 <= n < 0x1_0000
    ensures ToBits(Halve(n, 16), k) == Repeat(false, k)
  {
    Split16(n);
    ZerosOfZero(k);
  }

  /** 2^k - 1 is k ones. */
  lemma {:induction false} OnesBits(k: nat)
    ensures ToBits(Pow2(k) - 1, k) == Repeat(true, k)
  {
    if k > 0 {
      OnesBits(k - 1);
      var n := Pow2(k) - 1;
      assert n % 2 == 1 && n / 2 == Pow2(k - 1) - 1;
    }
  }

  lemma AndLowMask(w: seq<bool>)
    requires |w| == 32
    ensures And(w, Repeat(true, 16) + Repeat(false, 16)) == w[..16] + Repeat(false, 16)
  {
  }

  /** Zeros in the high bits add nothing and leave the sign bit clear. */
  lemma SignedZeroExtend(lo: seq<bool>, n: nat)
    requires 0 < n
    ensures Signed(lo + Repeat(false, n)) == Unsigned(lo)
  {
    UnsignedAppend(lo, Repeat(false, n));
    UnsignedRepeat(false, n);
    assert (lo + Repeat(false, n))[|lo| + n - 1] == false;
  }

  /** Copies of the sign bit in the high half leave a 16-bit value unchanged. */
  lemma SignExtend16(lo: seq<bool>)
    requires |lo| == 16
    ensures Signed(lo + Repeat(lo[15], 16)) == Signed(lo)
  {
    var sign := lo[15];
    var w := lo + Repeat(sign, 16);
    UnsignedAppend(lo, Repeat(sign, 16));
    UnsignedRepeat(sign, 16);
    Pow2Values();
    Pow2Add(16, 16);
    assert w[31] == sign;
  }

  lemma {:induction false} Pow2Add(a: nat, b: nat)
    ensures Pow2(a + b) == Pow2(a) * Pow2(b)
  {
    if b > 0 {
      Pow2Add(a, b - 1);
      DoubleProduct(Pow2(b - 1), Pow2(a));
      assert Pow2(a) * Pow2(b) == Pow2(a) * (2 * Pow2(b - 1));
    }
  }

  /** 0 is all zeros. */
  lemma {:induction false} ZerosOfZero(n: nat)
    ensures ToBits(0, n) == Repeat(false, n)
  {
    if n > 0 {
      ZerosOfZero(n - 1);
    }
  }
}
