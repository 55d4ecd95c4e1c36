/** Model of utils.go: the wrapping integer power used to compute the scrypt
    cost N = 2^rounds, and the boolean result of the hash comparison. */
module Utils {

  /** Go's int64 (and, on a 64-bit platform, Go's int). */
  newtype int64 = x: int | -0x8000_0000_0000_0000 <= x < 0x8000_0000_0000_0000

  /** A byte of a Go []byte. */
  newtype byte = x: int | 0 <= x < 0x100

  const MIN_INT64: int := -0x8000_0000_0000_0000
  const MAX_INT64: int := 0x7fff_ffff_ffff_ffff
  const TWO_64: int := 0x1_0000_0000_0000_0000

  // ---------------------------------------------------------------------------
  // Two's-complement wrap-around of 64-bit signed multiplication
  // ---------------------------------------------------------------------------

  /** a and b denote the same int64 once reduced modulo 2^64. */
  ghost predicate Congruent(a: int, b: int) {
    (a - b) % TWO_64 == 0
  }

  /** The int64 that an exact integer wraps to: the unique value of the int64
      range congruent to x modulo 2^64. Go's `*=` on int64 yields
      Wrap64(exact product). */
  function Wrap64(x: int): (r: int64)
    ensures Congruent(x, r as int)
  {
    var m := (x - MIN_INT64) % TWO_64;
    assert x - (m + MIN_INT64) == TWO_64 * ((x - MIN_INT64) / TWO_64);
    MultipleOfModulus((x - MIN_INT64) / TWO_64);
    (m + MIN_INT64) as int64
  }

  lemma MultipleOfModulus(k: int)
    ensures (TWO_64 * k) % TWO_64 == 0
  {
  }

  lemma CongruentSymmetric(a: int, b: int)
    requires Congruent(a, b)
    ensures Congruent(b, a)
  {
    var k := (a - b) / TWO_64;
    assert b - a == TWO_64 * -k;
    MultipleOfModulus(-k);
  }

  lemma CongruentTransitive(a: int, b: int, c: int)
    requires Congruent(a, b) && Congruent(b, c)
    ensures Congruent(a, c)
  {
    var k, l := (a - b) / TWO_64, (b - c) / TWO_64;
    assert a - c == TWO_64 * (k + l);
    MultipleOfModulus(k + l);
  }

  /** Reduction modulo 2^64 respects multiplication (it is a ring
      homomorphism), which is why wrapping every intermediate product of Pow
      does not change its final result. */
  lemma {:induction false} MulCongruent(a: int, a': int, b: int, b': int)
    requires Congruent(a, a') && Congruent(b, b')
    ensures Congruent(a * b, a' * b')
  {
    var k, l := (a - a') / TWO_64, (b - b') / TWO_64;
    assert a == a' + TWO_64 * k;
    assert b == b' + TWO_64 * l;
    calc {
      a * b - a' * b';
      (a' + TWO_64 * k) * (b' + TWO_64 * l) - a' * b';
      TWO_64 * (k * b' + a' * l + TWO_64 * k * l);
    }
    MultipleOfModulus(k * b' + a' * l + TWO_64 * k * l);
  }

  /** Two int64 values that are congruent modulo 2^64 are equal: Wrap64 picks
      exactly one representative. */
  lemma {:induction false} WrapUnique(x: int, r: int)
    requires MIN_INT64 <= r <= MAX_INT64
    requires Congruent(x, r)
    ensures Wrap64(x) as int == r
  {
    var w := Wrap64(x) as int;
    CongruentSymmetric(x, w);
    CongruentTransitive(w, x, r);
    var k := (w - r) / TWO_64;
    assert w - r == TWO_64 * k;
  }

  // ---------------------------------------------------------------------------
  // Exact powers
  // ---------------------------------------------------------------------------

  /** base^exp over the unbounded integers. */
  function Power(base: int, exp: nat): int
  {
    if exp == 0 then 1 else base * Power(base, exp - 1)
  }

  lemma {:induction false} PowerAdd(base: int, m: nat, n: nat)
    ensures Power(base, m + n) == Power(base, m) * Power(base, n)
  {
    if m > 0 {
      PowerAdd(base, m - 1, n);
    }
  }

  lemma {:induction false} PowerSquare(base: int, n: nat)
    ensures Power(base * base, n) == Power(base, 2 * n)
  {
    if n > 0 {
      PowerSquare(base, n - 1);
      assert Power(base, 2 * n) == base * (base * Power(base, 2 * n - 2));
    }
  }

  /** The square-and-multiply step: base^e == base^(e mod 2) * (base^2)^(e div 2). */
  lemma PowerHalve(base: int, e: nat)
    ensures Power(base, e) == Power(base, e % 2) * Power(base * base, e / 2)
  {
    PowerSquare(base, e / 2);
    PowerAdd(base, e % 2, 2 * (e / 2));
  }

  lemma {:induction false} PowerCongruent(x: int, y: int, n: nat)
    requires Congruent(x, y)
    ensures Congruent(Power(x, n), Power(y, n))
  {
    if n == 0 {
      MultipleOfModulus(0);
    } else {
      PowerCongruent(x, y, n - 1);
      MulCongruent(x, y, Power(x, n - 1), Power(y, n - 1));
    }
  }

  /** The powers of 2 at the edges of the int64 range. */
  lemma PowersOfTwo()
    ensures Power(2, 16) == 0x1_0000
    ensures Power(2, 62) == 0x4000_0000_0000_0000
    ensures Power(2, 63) == 0x8000_0000_0000_0000
    ensures Power(2, 64) == TWO_64
  {
    assert Power(2, 16) == 0x1_0000;
    PowerAdd(2, 16, 16);
    PowerAdd(2, 32, 16);
    PowerAdd(2, 48, 14);
    assert Power(2, 14) == 0x4000;
    assert Power(2, 63) == 2 * Power(2, 62);
    assert Power(2, 64) == 2 * Power(2, 63);
  }

  lemma {:induction false} PowerPositive(base: int, n: nat)
    requires base > 0
    ensures Power(base, n) > 0
  {
    if n > 0 {
      PowerPositive(base, n - 1);
    }
  }

  // ---------------------------------------------------------------------------
  // Pow
  // ---------------------------------------------------------------------------

  /** What Pow(base, exp) returns: base^exp reduced to a signed 64-bit
      two's-complement value. */
  function WrappedPower(base: int64, exp: int64): int64
    requires exp >= 0
  {
    Wrap64(Power(base as int, exp as nat))
  }

  /** Go's `x & 1` on an int64: the lowest bit of the two's-complement
      representation. Together with the shift it splits x into its halves. */
  function LowBit(x: int64): (b: int64)
    ensures b == 0 || b == 1
    ensures x as int == 2 * ShiftRight1(x) as int + b as int
  {
    x % 2
  }

  /** Go's arithmetic shift `x >> 1` on an int64: division by 2 rounded
      towards minus infinity. */
  function ShiftRight1(x: int64): (r: int64)
    ensures 2 * r as int <= x as int < 2 * r as int + 2
  {
    x / 2
  }

  /** One multiply step of Pow: after folding the low bit of e into the
      accumulator, the accumulator times (b*b)^(e/2) is still acc * b^e. */
  lemma MultiplyStep(acc: int, b: int, e: nat, acc': int)
    requires Congruent(acc', if e % 2 == 1 then acc * b else acc)
    ensures Congruent(acc' * Power(b * b, e / 2), acc * Power(b, e))
  {
    var low, high := Power(b, e % 2), Power(b * b, e / 2);
    PowerHalve(b, e);
    assert low == if e % 2 == 1 then b else 1;
    assert acc * low == if e % 2 == 1 then acc * b else acc;
    MultipleOfModulus(0);
    MulCongruent(acc', acc * low, high, high);
    assert acc * low * high == acc * Power(b, e);
  }

  /** One squaring step of Pow: replacing b*b by its wrapped value changes
      acc * (b*b)^n only up to wrapping. */
  lemma SquareStep(acc: int, b: int, b': int, n: nat)
    requires Congruent(b * b, b')
    ensures Congruent(acc * Power(b', n), acc * Power(b * b, n))
  {
    CongruentSymmetric(b * b, b');
    PowerCongruent(b', b * b, n);
    MultipleOfModulus(0);
    MulCongruent(acc, acc, Power(b', n), Power(b * b, n));
  }

  /** Pow computes base**exp by square-and-multiply, every product wrapping
      as Go's int64 multiplication does. The loop ends only once the shifted
      exponent reaches 0, which a negative exponent never does. */
  method Pow(base: int64, exp: int64) returns (result: int64)
    requires exp >= 0
    ensures result == WrappedPower(base, exp)
  {
    ghost var goal := Power(base as int, exp as nat);
    var b, e := base, exp;
    result := 1;
    while true
      invariant 0 <= e
      invariant Congruent(result as int * Power(b as int, e as nat), goal)
      decreases e
    {
      ghost var r0, e0 := result, e;
      if LowBit(e) != 0 {
        result := Wrap64(result as int * b as int);
      }
      e := ShiftRight1(e);
      MultiplyStep(r0 as int, b as int, e0 as nat, result as int);
      CongruentTransitive(result as int * Power(b as int * b as int, e as nat),
                          r0 as int * Power(b as int, e0 as nat), goal);
      if e == 0 {
        WrapUnique(goal, result as int);
        break;
      }
      ghost var b0 := b;
      b := Wrap64(b as int * b as int);
      SquareStep(result as int, b0 as int, b as int, e as nat);
      CongruentTransitive(result as int * Power(b as int, e as nat),
                          result as int * Power(b0 as int * b0 as int, e as nat), goal);
    }
  }

  /** Shifting a negative exponent k times never yields 0: the arithmetic
      shift sticks at -1 (`-1 >> 1` is -1), so Pow's loop would not end for
      exp < 0. */
  function ShiftTimes(x: int64, k: nat): int64
    decreases k
  {
    if k == 0 then x else ShiftTimes(ShiftRight1(x), k - 1)
  }

  lemma {:induction false} NegativeExponentNeverZero(x: int64, k: nat)
    requires x < 0
    ensures ShiftTimes(x, k) < 0
    decreases k
  {
    if k > 0 {
      NegativeExponentNeverZero(ShiftRight1(x), k - 1);
    }
  }

  // ---------------------------------------------------------------------------
  // Properties of Pow, stated on WrappedPower, the value it returns
  // ---------------------------------------------------------------------------

  lemma PowZeroExponent(base: int64)
    ensures WrappedPower(base, 0) == 1
  {
  }

  lemma {:induction false} PowZeroBase(exp: int64)
    requires exp >= 1
    ensures WrappedPower(0, exp) == 0
  {
    assert Power(0, exp as nat) == 0;
    WrapUnique(0, 0);
  }

  /** The cases of the package's own power test. */
  lemma PowTestVectors()
    ensures WrappedPower(42, 0) == 1
    ensures WrappedPower(0, 42) == 0
    ensures WrappedPower(2, 8) == 256
    ensures WrappedPower(10, 10) == 10000000000
  {
    PowZeroBase(42);
    assert Power(2, 8) == 256;
    WrapUnique(256, 256);
    assert Power(10, 10) == 10000000000;
    WrapUnique(10000000000, 10000000000);
  }

  /** 2^exp is represented exactly, and is positive, as long as exp <= 62. */
  lemma {:induction false} PowTwoExact(exp: int64)
    requires 0 <= exp <= 62
    ensures WrappedPower(2, exp) as int == Power(2, exp as nat) > 0
  {
    PowerAdd(2, exp as nat, 62 - exp as nat);
    PowerPositive(2, exp as nat);
    PowerPositive(2, 62 - exp as nat);
    PowersOfTwo();
    MultipleOfModulus(0);
    WrapUnique(Power(2, exp as nat), Power(2, exp as nat));
  }

  /** 2^63 wraps to the most negative int64. */
  lemma PowTwo63()
    ensures WrappedPower(2, 63) as int == MIN_INT64
  {
    PowersOfTwo();
    MultipleOfModulus(1);
    WrapUnique(0x8000_0000_0000_0000, MIN_INT64);
  }

  /** From 2^64 on, every power of 2 wraps to 0. */
  lemma {:induction false} PowTwoVanishes(exp: int64)
    requires exp >= 64
    ensures WrappedPower(2, exp) == 0
  {
    PowerAdd(2, 64, exp as nat - 64);
    PowersOfTwo();
    MultipleOfModulus(Power(2, exp as nat - 64));
    WrapUnique(Power(2, exp as nat), 0);
  }

  /** Pow(2, exp) is positive exactly when exp <= 62. */
  lemma PowTwoPositiveIff(exp: int64)
    requires exp >= 0
    ensures WrappedPower(2, exp) > 0 <==> exp <= 62
  {
    if exp <= 62 {
      PowTwoExact(exp);
    } else if exp == 63 {
      PowTwo63();
    } else {
      PowTwoVanishes(exp);
    }
  }

  // ---------------------------------------------------------------------------
  // CompareHashes
  // ---------------------------------------------------------------------------

  /** The boolean result of comparing two key hashes (the comparison itself
      runs in constant time, which is not modelled): equal length and equal
      bytes at every position. */
  function CompareHashes(x: seq<byte>, y: seq<byte>): (equal: bool)
    ensures equal <==> |x| == |y| && forall i :: 0 <= i < |x| ==> x[i] == y[i]
  {
    x == y
  }

  lemma CompareHashesReflexive(x: seq<byte>)
    ensures CompareHashes(x, x)
  {
  }

  lemma CompareHashesSymmetric(x: seq<byte>, y: seq<byte>)
    ensures CompareHashes(x, y) == CompareHashes(y, x)
  {
  }

  lemma CompareHashesLengthMismatch(x: seq<byte>, y: seq<byte>)
    requires |x| != |y|
    ensures !CompareHashes(x, y)
  {
  }

  /** The cases of the package's own comparison test: "abcd" against itself
      and against "abc". */
  lemma CompareHashesTestVectors()
    ensures CompareHashes([0x61, 0x62, 0x63, 0x64], [0x61, 0x62, 0x63, 0x64])
    ensures !CompareHashes([0x61, 0x62, 0x63, 0x64], [0x61, 0x62, 0x63])
  {
  }
}
