/** Multiplication: unary minus and operator*=.

    Unary minus is `~x + 1`; binary + has no body in the repository, and the
    model takes it as copy-then-+= with the BigInteger built from the int 1,
    which is the single limb 1.

    *= negates both operands when the multiplier is negative, resets this to
    zero, and runs numBits() iterations over the multiplier: each set bit
    operator[](i) adds the accumulator into this, and after every iteration
    the accumulator is shifted left by one.  operator<<= has no body in the
    repository; the model takes `accumulator <<= 1` as `accumulator +=
    accumulator`, the doubling that shifting left by one means.  Because
    numBits and operator[] work in bytes, the multiplier the loop sees is the
    low byte of every limb, packed 8 bits apart (LowBytes). */
module Multiplication {
  import opened Limbs
  import opened Bitwise
  import opened Addition

  /** The BigInteger built from the int 1. */
  const ONE: seq<Limb> := [1]

  /** operator-(x): `~x + 1`. */
  function Neg(s: seq<Limb>): (r: seq<Limb>)
    requires |s| > 0
    ensures |s| <= |r| <= |s| + 1
  {
    Add(NotLimbs(s), ONE)
  }

  /** The accumulator *= starts from: -this when the multiplier is negative. */
  function Multiplicand(a: seq<Limb>, b: seq<Limb>): (r: seq<Limb>)
    requires |a| > 0 && |b| > 0
    ensures |r| > 0
  {
    if IsNegative(b) then Neg(a) else a
  }

  /** `check`: the multiplier, negated when it is negative. */
  function Multiplier(b: seq<Limb>): (r: seq<Limb>)
    requires |b| > 0
    ensures |r| > 0 && !IsNegative(r)
    ensures ToInt(r) == if IsNegative(b) then -ToInt(b) else ToInt(b)
  {
    if IsNegative(b) then
      ToIntRange(b);
      NegValue(b);
      ToIntRange(Neg(b));
      Neg(b)
    else
      b
  }

  /** The loop of *= from iteration i on, with accumulator acc and result res. */
  function MulLoop(acc: seq<Limb>, res: seq<Limb>, check: seq<Limb>, i: nat): (r: seq<Limb>)
    requires |acc| > 0 && |res| > 0
    ensures |r| > 0
    decreases NumBits(check) - i
  {
    if i >= NumBits(check) then res
    else
      var res' := if BitAt(check, i) then Add(res, acc) else res;
      MulLoop(Add(acc, acc), res', check, i + 1)
  }

  /** operator*=: reset to [0], then the loop over the normalised multiplier. */
  function Mul(a: seq<Limb>, b: seq<Limb>): (r: seq<Limb>)
    requires |a| > 0 && |b| > 0
    ensures |r| > 0
  {
    MulLoop(Multiplicand(a, b), [0], Multiplier(b), 0)
  }

  /** The multiplier as the loop reads it: bits 0 .. k-1 of operator[]. */
  function BitsValue(c: seq<Limb>, k: nat): nat
  {
    if k == 0 then 0 else BitsValue(c, k - 1) + (if BitAt(c, k - 1) then Pow2(k - 1) else 0)
  }

  /** The low byte of each of the first j limbs, packed 8 bits apart. */
  function LowBytes(c: seq<Limb>, j: nat): nat
    requires j <= |c|
  {
    if j == 0 then 0 else LowBytes(c, j - 1) + (c[j - 1] % 256) * Pow2(8 * (j - 1))
  }

  // ---------------------------------------------------------------------------
  // Unary minus

  lemma {:induction false} OneValue()
    ensures ToInt(ONE) == 1 && !IsNegative(ONE)
  {
    UnsignedSnoc([], 1);
    assert [] + [1] == ONE;
  }

  /** -x is exact except at zero: ~0 is all ones, and -1 + 1 then takes the
      faulty branch of +=, so -0 comes out as -2^(64 n). */
  lemma {:induction false} NegValue(s: seq<Limb>)
    requires |s| > 0
    ensures ToInt(Neg(s)) == if ToInt(s) == 0 then -(Weight(|s|) as int) else -ToInt(s)
  {
    NotValue(s);
    OneValue();
    ToIntRange(s);
    AddValue(NotLimbs(s), ONE);
  }

  /** Negating twice gives back every nonzero value (the narrowest minimum
      included: its negation grows by a limb); zero comes back as 2^(64 n). */
  lemma {:induction false} NegNegValue(s: seq<Limb>)
    requires |s| > 0
    ensures ToInt(s) != 0 ==> ToInt(Neg(Neg(s))) == ToInt(s)
    ensures ToInt(s) == 0 ==> ToInt(Neg(Neg(s))) == Weight(|s|)
  {
    NegValue(s);
    NegValue(Neg(s));
  }

  /** -0 is one limb longer than the zero it negates: ~0 + 1 takes the faulty
      branch of += and appends an all-ones limb. */
  lemma {:induction false} NegZeroLength(s: seq<Limb>)
    requires |s| > 0 && ToInt(s) == 0
    ensures |Neg(s)| == |s| + 1
  {
    var t := NotLimbs(s);
    NotValue(s);
    ToIntRange(t);
    OneValue();
    LoopResultValue(t, ONE);
    var r := LoopResult(t, ONE, CARRY_UNIT);
    ValueByHalf(r);
    assert ToInt(r) == 0;
    ToIntRange(r);
  }

  // ---------------------------------------------------------------------------
  // The value computed by *=

  lemma {:induction false} MulSign(x: int, p: nat)
    ensures x < 0 && p > 0 ==> x * p < 0
    ensures x >= 0 ==> x * p >= 0
    ensures x * p < 0 ==> x < 0
  {
  }

  /** One pass of the loop keeps "acc = x * 2^i and res = x * (bits below i)";
      no addition in it takes the faulty branch of +=, because res and acc are
      never of opposite signs. */
  lemma {:induction false} MulLoopValue(acc: seq<Limb>, res: seq<Limb>, check: seq<Limb>, i: nat, x: int)
    requires |acc| > 0 && |res| > 0 && i <= NumBits(check)
    requires ToInt(acc) == x * Pow2(i)
    requires ToInt(res) == x * BitsValue(check, i)
    ensures ToInt(MulLoop(acc, res, check, i)) == x * BitsValue(check, NumBits(check))
    decreases NumBits(check) - i
  {
    if i < NumBits(check) {
      var acc' := Add(acc, acc);
      var res' := if BitAt(check, i) then Add(res, acc) else res;
      LoopStepKeeps(acc, res, check, i, x);
      MulLoopValue(acc', res', check, i + 1, x);
    } else {
      assert i == NumBits(check);
    }
  }

  /** One iteration takes acc = x * 2^i to x * 2^(i+1), and res from x times
      the bits below i to x times the bits below i + 1. */
  lemma {:induction false} LoopStepKeeps(acc: seq<Limb>, res: seq<Limb>, check: seq<Limb>, i: nat, x: int)
    requires |acc| > 0 && |res| > 0
    requires ToInt(acc) == x * Pow2(i)
    requires ToInt(res) == x * BitsValue(check, i)
    ensures ToInt(Add(acc, acc)) == x * Pow2(i + 1)
    ensures ToInt(if BitAt(check, i) then Add(res, acc) else res) == x * BitsValue(check, i + 1)
  {
    var p, bv := Pow2(i), BitsValue(check, i);
    var p', bv' := Pow2(i + 1), BitsValue(check, i + 1);
    assert p' == 2 * p;
    DoubleStep(acc, x, p);
    SameFactor(x, p', 2 * p);
    if BitAt(check, i) {
      assert bv' == bv + p;
      AddStep(res, acc, x, p, bv);
      SameFactor(x, bv', bv + p);
    } else {
      assert bv' == bv;
    }
  }

  /** acc += acc: 2^i x becomes 2^(i+1) x. */
  lemma {:induction false} DoubleStep(acc: seq<Limb>, x: int, p: int)
    requires |acc| > 0 && ToInt(acc) == x * p
    ensures ToInt(Add(acc, acc)) == x * (2 * p)
  {
    AddSelfValue(acc);
    ScaleArith(x, p, 0);
  }

  /** res += acc with res = x * bv and acc = x * p: never the faulty case. */
  lemma {:induction false} AddStep(res: seq<Limb>, acc: seq<Limb>, x: int, p: int, bv: int)
    requires |res| > 0 && |acc| > 0 && p > 0 && bv >= 0
    requires ToInt(res) == x * bv && ToInt(acc) == x * p
    ensures ToInt(Add(res, acc)) == x * (bv + p)
  {
    ToIntRange(res);
    ToIntRange(acc);
    SameSignArith(ToInt(res), ToInt(acc), x, p, bv);
    AddValue(res, acc);
    ScaleArith(x, p, bv);
  }

  /** While res = x * bv and acc = x * p, res is never negative with acc not. */
  lemma {:induction false} SameSignArith(vr: int, va: int, x: int, p: int, bv: int)
    requires vr == x * bv && va == x * p && p > 0 && bv >= 0
    ensures vr < 0 ==> va < 0
  {
    MulSign(x, p);
    MulSign(x, bv);
  }

  lemma {:induction false} SplitProduct(p: int, m: int, lo: int, hi: int)
    requires m == lo + hi
    ensures p * m == p * lo + p * hi
  {
  }

  lemma {:induction false} ScaleArith(x: int, p: int, b: int)
    ensures 2 * (x * p) == x * (2 * p)
    ensures x * b + x * p == x * (b + p)
  {
  }

  /** *= multiplies the (possibly negated) multiplicand by the multiplier as
      the loop reads it: numBits() = 8 * limbs bits, through operator[]. */
  lemma {:induction false} MulValue(a: seq<Limb>, b: seq<Limb>)
    requires |a| > 0 && |b| > 0
    ensures ToInt(Mul(a, b)) == ToInt(Multiplicand(a, b)) * BitsValue(Multiplier(b), NumBits(Multiplier(b)))
  {
    UnsignedSnoc([], 0);
    assert [] + [0] == [0];
    MulLoopValue(Multiplicand(a, b), [0], Multiplier(b), 0, ToInt(Multiplicand(a, b)));
  }

  // ---------------------------------------------------------------------------
  // What operator[] reads: the low byte of every limb

  /** Bits 0 .. t of x make up x mod 2^(t+1). */
  lemma {:induction false} ModStep(x: nat, t: nat)
    ensures TestBit(x, t) ==> x % Pow2(t + 1) == x % Pow2(t) + Pow2(t)
    ensures !TestBit(x, t) ==> x % Pow2(t + 1) == x % Pow2(t)
  {
    if t == 0 {
      assert Pow2(1) == 2;
    } else {
      ModStep(x / 2, t - 1);
      DivHalve(x, Pow2(t));
      DivHalve(x, Pow2(t - 1));
    }
  }

  /** Reading bits 8j .. 8j+t-1 adds the low t bits of limb j at weight 2^(8j). */
  lemma {:induction false} ByteBits(c: seq<Limb>, j: nat, t: nat)
    requires j < |c| && t <= 8
    ensures BitsValue(c, 8 * j + t) == BitsValue(c, 8 * j) + Pow2(8 * j) * (c[j] % Pow2(t))
  {
    if t > 0 {
      var v, p := BitsValue(c, 8 * j), Pow2(8 * j);
      var lo, m := c[j] % Pow2(t - 1), c[j] % Pow2(t);
      var bit := if TestBit(c[j], t - 1) then Pow2(t - 1) else 0;
      var before, after := v + p * lo, BitsValue(c, 8 * j + t);
      assert BitsValue(c, 8 * j + (t - 1)) == before by {
        ByteBits(c, j, t - 1);
      }
      assert after == before + p * bit by {
        ByteBitStep(c, j, t - 1);
        assert 8 * j + (t - 1) + 1 == 8 * j + t;
      }
      assert m == lo + bit by {
        ModStep(c[j], t - 1);
      }
      StepArith(v, before, after, p, lo, bit, m);
    } else {
      assert c[j] % Pow2(t) == 0;
    }
  }

  /** Adding one weighted bit to a prefix value. */
  lemma {:induction false} StepArith(v: int, before: int, after: int, p: int, lo: int, bit: int, m: int)
    requires before == v + p * lo && after == before + p * bit && m == lo + bit
    ensures after == v + p * m
  {
    SplitProduct(p, m, lo, bit);
  }

  /** Bit 8j + t of the multiplier is bit t of limb j, worth 2^(8j) * 2^t. */
  lemma {:induction false} ByteBitStep(c: seq<Limb>, j: nat, t: nat)
    requires j < |c| && t < 8
    ensures BitsValue(c, 8 * j + t + 1)
            == BitsValue(c, 8 * j + t) + Pow2(8 * j) * (if TestBit(c[j], t) then Pow2(t) else 0)
  {
    BitsValueStep(c, 8 * j + t);
    BitAtLimb(c, j, t);
    Pow2Add(8 * j, t);
  }

  lemma {:induction false} BitsValueStep(c: seq<Limb>, k: nat)
    ensures BitsValue(c, k + 1) == BitsValue(c, k) + (if BitAt(c, k) then Pow2(k) else 0)
  {
  }

  /** operator[](8j + t) reads bit t of limb j. */
  lemma {:induction false} BitAtLimb(c: seq<Limb>, j: nat, t: nat)
    requires t < 8
    ensures BitAt(c, 8 * j + t) == (j < |c| && TestBit(c[j], t))
  {
    ModUnique(8 * j + t, CHAR_BIT, j, t);
  }

  lemma {:induction false} SameFactor(p: int, a: int, b: int)
    requires a == b
    ensures p * a == p * b
  {
  }

  /** All 8 * |c| bits the loop reads make up the packed low bytes. */
  lemma {:induction false} BitsValueLowBytes(c: seq<Limb>, j: nat)
    requires j <= |c|
    ensures BitsValue(c, 8 * j) == LowBytes(c, j)
  {
    if j > 0 {
      var k := j - 1;
      var p, m := Pow2(8 * k), c[k] % 256;
      assert BitsValue(c, 8 * k) == LowBytes(c, k) by {
        BitsValueLowBytes(c, k);
      }
      assert BitsValue(c, 8 * j) == BitsValue(c, 8 * k) + p * m by {
        ByteBits(c, k, CHAR_BIT);
        ByteWidth();
        assert 8 * k + CHAR_BIT == 8 * j;
      }
      assert LowBytes(c, j) == LowBytes(c, k) + m * p by {
        LowBytesStep(c, k);
      }
    }
  }

  /** One more limb adds its low byte, 8 * k bits up. */
  lemma LowBytesStep(c: seq<Limb>, k: nat)
    requires k < |c|
    ensures LowBytes(c, k + 1) == LowBytes(c, k) + (c[k] % 256) * Pow2(8 * k)
  {
  }

  /** The multiplier *= actually uses: the low bytes of check's limbs. */
  lemma {:induction false} MulLowBytes(a: seq<Limb>, b: seq<Limb>)
    requires |a| > 0 && |b| > 0
    ensures ToInt(Mul(a, b)) == ToInt(Multiplicand(a, b)) * LowBytes(Multiplier(b), |Multiplier(b)|)
  {
    var m, x := Multiplier(b), ToInt(Multiplicand(a, b));
    var bits, bytes := BitsValue(m, NumBits(m)), LowBytes(m, |m|);
    assert ToInt(Mul(a, b)) == x * bits by {
      MulValue(a, b);
    }
    assert bits == bytes by {
      BitsValueLowBytes(m, |m|);
      assert NumBits(m) == 8 * |m|;
    }
    SameFactor(x, bits, bytes);
  }

  /** x *= v for a one-limb multiplier 0 <= v < 256 gives x * v. */
  lemma {:induction false} MulSmall(a: seq<Limb>, b: seq<Limb>, v: nat)
    requires |a| > 0 && b == [v] && v < 256
    ensures ToInt(Mul(a, b)) == ToInt(a) * v
  {
    MulLowBytes(a, b);
    LowBytesOne(b, v);
  }

  lemma {:induction false} LowBytesOne(m: seq<Limb>, u: nat)
    requires m == [u] && u < 256
    ensures LowBytes(m, |m|) == u
  {
    assert LowBytes(m, 0) == 0;
    assert Pow2(8 * 0) == 1;
  }

  /** x *= v for a one-limb multiplier -256 < v < 0 gives x * v, except that
      0 * v gives 2^(64 |x|) * v, because the loop starts from -0. */
  lemma {:induction false} MulSmallNegative(a: seq<Limb>, b: seq<Limb>, v: int)
    requires |a| > 0 && -256 < v < 0 && b == [BASE + v]
    ensures ToInt(a) != 0 ==> ToInt(Mul(a, b)) == ToInt(a) * v
    ensures ToInt(a) == 0 ==> ToInt(Mul(a, b)) == Weight(|a|) * v
  {
    assert IsNegative(b);
    NegSmall(b, v);
    MulNegatedBy(a, b, v);
  }

  /** A negative multiplier whose negation reads as -v. */
  lemma {:induction false} MulNegatedBy(a: seq<Limb>, b: seq<Limb>, v: int)
    requires |a| > 0 && |b| > 0 && IsNegative(b) && LowBytes(Neg(b), |Neg(b)|) == -v
    ensures ToInt(a) != 0 ==> ToInt(Mul(a, b)) == ToInt(a) * v
    ensures ToInt(a) == 0 ==> ToInt(Mul(a, b)) == Weight(|a|) * v
  {
    MulNegativeMultiplier(a, b);
    NegValue(a);
    SmallNegArith(ToInt(Mul(a, b)), ToInt(Neg(a)), LowBytes(Neg(b), |Neg(b)|), ToInt(a), Weight(|a|), v);
  }

  /** With a negative multiplier both operands are negated first. */
  lemma {:induction false} MulNegativeMultiplier(a: seq<Limb>, b: seq<Limb>)
    requires |a| > 0 && |b| > 0 && IsNegative(b)
    ensures ToInt(Mul(a, b)) == ToInt(Neg(a)) * LowBytes(Neg(b), |Neg(b)|)
  {
    MulLowBytes(a, b);
    var x := ToInt(Multiplicand(a, b));
    var l := LowBytes(Multiplier(b), |Multiplier(b)|);
    assert x == ToInt(Neg(a));
    assert l == LowBytes(Neg(b), |Neg(b)|);
    assert ToInt(Mul(a, b)) == x * l;
  }

  lemma {:induction false} SmallNegArith(m: int, na: int, l: int, x: int, w: int, v: int)
    requires m == na * l && l == -v
    requires na == if x == 0 then -w else -x
    ensures x != 0 ==> m == x * v
    ensures x == 0 ==> m == w * v
  {
  }

  /** -[2^64 + v] for -256 < v < 0 is the single limb -v. */
  lemma {:induction false} NegSmall(b: seq<Limb>, v: int)
    requires -256 < v < 0 && b == [BASE + v]
    ensures Neg(b) == [-v]
    ensures LowBytes(Neg(b), |Neg(b)|) == -v
  {
    var t := NotLimbs(b);
    assert t == [-v - 1];
    var r := LoopResult(t, ONE, CARRY_UNIT);
    assert Padded(t, ONE) == t;
    assert Carry(t, ONE, 0, CARRY_UNIT, 0) == 0;
    assert r[0] == -v;
    assert r == [-v];
    LowBytesOne(Neg(b), -v);
  }

  /** x *= 0 leaves exactly the single limb 0: no bit of the multiplier is set,
      so nothing is ever added to the reset value. */
  lemma {:induction false} MulByZero(a: seq<Limb>, b: seq<Limb>)
    requires |a| > 0 && b == [0]
    ensures Mul(a, b) == [0]
  {
    assert Multiplier(b) == b;
    ZeroHasNoBits(b);
    MulLoopNoBits(Multiplicand(a, b), [0], b, 0);
  }

  lemma {:induction false} MulLoopNoBits(acc: seq<Limb>, res: seq<Limb>, check: seq<Limb>, i: nat)
    requires |acc| > 0 && |res| > 0
    requires forall k: nat :: i <= k < NumBits(check) ==> !BitAt(check, k)
    ensures MulLoop(acc, res, check, i) == res
    decreases NumBits(check) - i
  {
    if i < NumBits(check) {
      MulLoopNoBits(Add(acc, acc), res, check, i + 1);
    }
  }

  // ---------------------------------------------------------------------------
  // x *= x

  /** x *= x as written.  `check` is a reference: for a non-negative x it is
      this object itself, which setZero has reset to [0] before the loop reads
      a bit of it; for a negative x both negations are copies taken before the
      reset, and the call is an ordinary product. */
  function MulSelf(a: seq<Limb>): (r: seq<Limb>)
    requires |a| > 0
    ensures |r| > 0
  {
    if IsNegative(a) then Mul(a, a) else MulLoop(a, [0], [0], 0)
  }

  /** x *= x yields 0 for every non-negative x. */
  lemma {:induction false} MulSelfNonNegative(a: seq<Limb>)
    requires |a| > 0 && !IsNegative(a)
    ensures MulSelf(a) == [0]
  {
    ZeroHasNoBits([0]);
    MulLoopNoBits(a, [0], [0], 0);
  }

  /** 3 *= 3 yields 0, where multiplying 3 by a separate copy of 3 yields 9. */
  lemma {:induction false} MulSelfCounterexample(a: seq<Limb>)
    requires a == [3]
    ensures ToInt(a) == 3
    ensures ToInt(MulSelf(a)) == 0
    ensures ToInt(Mul(a, a)) == 9
  {
    UnsignedSnoc([], 3);
    assert [] + [3] == a;
    MulSelfNonNegative(a);
    UnsignedSnoc([], 0);
    assert [] + [0] == [0];
    MulSmall(a, a, 3);
  }
}
