/** Addition: what operator+= does to the limb sequence, and what that means
    for the two's-complement value.

    += pads this to the longer length with its own fill word, adds limb by
    limb with a running carry, reading other's missing limbs as other's fill
    word, and then appends one limb (this's original fill word) when
    `(thisNegative or otherNegative) != resNegative`.

    The carry is a documented choice: the loop computes it from a type,
    operationType, that is declared nowhere, and shifts the sum right by
    CHAR_BIT.  The model takes the limb sum in a wide unsigned type and carries
    sum / 2^64 (CARRY_UNIT); AddWith(.., CARRY_UNIT_AS_WRITTEN) keeps the shift
    by 8 to show what it would do.  The overflow test is kept as written:
    AddValue says exactly when it gives the right value, and AddIntended is
    the same-sign test the comment "Overflow has happened" calls for. */
module Addition {
  import opened Limbs

  /** The carry divisor the model uses: sum >> dataTypeBits. */
  const CARRY_UNIT: nat := 0x1_0000_0000_0000_0000
  /** The carry divisor as written: sum >> CHAR_BIT. */
  const CARRY_UNIT_AS_WRITTEN: nat := 0x100

  /** rv: limb i of other, or other's fill word past its end. */
  function LimbAt(s: seq<Limb>, i: nat, fill: Limb): (r: Limb)
    ensures i < |s| ==> r == s[i]
    ensures i >= |s| ==> r == fill
  {
    if i < |s| then s[i] else fill
  }

  /** carryOver on entry to step i of the loop. */
  function Carry(a: seq<Limb>, b: seq<Limb>, fb: Limb, unit: nat, i: nat): (c: nat)
    requires unit > 0 && i <= |a|
    ensures unit == CARRY_UNIT ==> c <= 1
    decreases i
  {
    if i == 0 then 0
    else (a[i - 1] + LimbAt(b, i - 1, fb) + Carry(a, b, fb, unit, i - 1)) / unit
  }

  /** The limbs after the loop: `*lit += rv + carryOver`, wrapping mod 2^64. */
  function SumLimbs(a: seq<Limb>, b: seq<Limb>, fb: Limb, unit: nat): (r: seq<Limb>)
    requires unit > 0
    ensures |r| == |a|
  {
    seq(|a|, i requires 0 <= i < |a| => (a[i] + LimbAt(b, i, fb) + Carry(a, b, fb, unit, i)) % BASE)
  }

  /** this after the resize: padded to other's length with its own fill word. */
  function Padded(a: seq<Limb>, b: seq<Limb>): (r: seq<Limb>)
    requires |a| > 0
    ensures |r| == Max(|a|, |b|)
  {
    if |a| < |b| then Resize(a, |b|, FillWord(IsNegative(a))) else a
  }

  /** this after the loop of +=, before the overflow test. */
  function LoopResult(a: seq<Limb>, b: seq<Limb>, unit: nat): (r: seq<Limb>)
    requires |a| > 0 && |b| > 0 && unit > 0
    ensures |r| == Max(|a|, |b|)
  {
    SumLimbs(Padded(a, b), b, FillWord(IsNegative(b)), unit)
  }

  /** += with a given carry divisor: the loop, then the overflow test as written. */
  function AddWith(a: seq<Limb>, b: seq<Limb>, unit: nat): (r: seq<Limb>)
    requires |a| > 0 && |b| > 0 && unit > 0
    ensures var n := Max(|a|, |b|);
      && n <= |r| <= n + 1
      && r[..n] == LoopResult(a, b, unit)
      && (|r| == n + 1 <==> (IsNegative(a) || IsNegative(b)) != IsNegative(r[..n]))
      && (|r| == n + 1 ==> r[n] == FillWord(IsNegative(a)))
  {
    var r := LoopResult(a, b, unit);
    if (IsNegative(a) || IsNegative(b)) != IsNegative(r) then r + [FillWord(IsNegative(a))] else r
  }

  /** operator+= as modelled: carry by the limb width, overflow test as written. */
  function Add(a: seq<Limb>, b: seq<Limb>): (r: seq<Limb>)
    requires |a| > 0 && |b| > 0
    ensures |r| > 0
    ensures Max(|a|, |b|) <= |r| <= Max(|a|, |b|) + 1
  {
    AddWith(a, b, CARRY_UNIT)
  }

  /** The overflow test the comment at the push_back calls for: operands of the
      same sign whose sum shows the other sign. */
  function AddIntended(a: seq<Limb>, b: seq<Limb>): (r: seq<Limb>)
    requires |a| > 0 && |b| > 0
    ensures |r| > 0
    ensures Max(|a|, |b|) <= |r| <= Max(|a|, |b|) + 1
    ensures r[..Max(|a|, |b|)] == LoopResult(a, b, CARRY_UNIT)
  {
    var r := LoopResult(a, b, CARRY_UNIT);
    assert (r + [FillWord(IsNegative(a))])[..|r|] == r;
    if IsNegative(a) == IsNegative(b) && IsNegative(r) != IsNegative(a)
    then r + [FillWord(IsNegative(a))] else r
  }

  /** rv walks other sign-extended to n limbs: the limbs it reads are other
      resized with its own fill word, and they have other's value. */
  lemma {:induction false} LimbAtSignExtends(b: seq<Limb>, n: nat)
    requires 0 < |b| <= n
    ensures var f := FillWord(IsNegative(b));
      seq(n, i requires 0 <= i < n => LimbAt(b, i, f)) == Resize(b, n, f)
    ensures ToInt(seq(n, i requires 0 <= i < n => LimbAt(b, i, FillWord(IsNegative(b))))) == ToInt(b)
  {
    var f := FillWord(IsNegative(b));
    var w := seq(n, i requires 0 <= i < n => LimbAt(b, i, f));
    assert w == Resize(b, n, f);
    ResizeValue(b, n);
  }

  // ---------------------------------------------------------------------------
  // The loop computes the sum modulo 2^(64 n)

  lemma {:induction false} SumPrefixValue(a: seq<Limb>, b: seq<Limb>, fb: Limb, k: nat)
    requires |b| <= |a| && k <= |a|
    ensures Carry(a, b, fb, CARRY_UNIT, k) <= 1
    ensures Unsigned(SumLimbs(a, b, fb, CARRY_UNIT)[..k]) + Carry(a, b, fb, CARRY_UNIT, k) * Weight(k)
         == Unsigned(a[..k]) + Unsigned(Resize(b, |a|, fb)[..k])
  {
    if k > 0 {
      var j := k - 1;
      var s := SumLimbs(a, b, fb, CARRY_UNIT);
      var pb := Resize(b, |a|, fb);
      var c := Carry(a, b, fb, CARRY_UNIT, j);
      SumPrefixValue(a, b, fb, j);
      assert s[j] == (a[j] + pb[j] + c) % BASE;
      assert Carry(a, b, fb, CARRY_UNIT, k) == (a[j] + pb[j] + c) / BASE;
      UnsignedPrefix(s, k);
      UnsignedPrefix(a, k);
      UnsignedPrefix(pb, k);
      CarryStep(Unsigned(s[..j]), Unsigned(a[..j]), Unsigned(pb[..j]), a[j], pb[j], c, Weight(j),
                s[j], Carry(a, b, fb, CARRY_UNIT, k), Weight(k));
    }
  }

  /** One step of the carry chain: adding limbs x and y and carry c at weight
      w keeps "sum + carry * weight == a + b". */
  lemma {:induction false} CarryStep(us: int, ua: int, ub: int, x: Limb, y: Limb, c: nat, w: nat,
                                     digit: int, carry: int, w': int)
    requires c <= 1
    requires us + c * w == ua + ub
    requires digit == (x + y + c) % BASE && carry == (x + y + c) / BASE && w' == BASE * w
    ensures carry <= 1
    ensures us + digit * w + carry * w' == ua + x * w + ub + y * w
  {
    var t: int := (x as int) + (y as int) + c;
    Distrib3(t % BASE, BASE * (t / BASE), 0, w);
    Distrib3(x, y, c, w);
    assert (t / BASE) * (BASE * w) == (BASE * (t / BASE)) * w;
  }

  lemma {:induction false} Distrib3(x: int, y: int, z: int, w: int)
    ensures (x + y + z) * w == x * w + y * w + z * w
  {
  }

  /** The loop adds the padded operands modulo 2^(64 n): at most one carry
      leaves the top limb. */
  lemma {:induction false} LoopResultUnsigned(a: seq<Limb>, b: seq<Limb>)
    requires |a| > 0 && |b| > 0
    ensures var n := Max(|a|, |b|);
      var d := Unsigned(Padded(a, b)) + Unsigned(Resize(b, n, FillWord(IsNegative(b))))
             - Unsigned(LoopResult(a, b, CARRY_UNIT));
      d == 0 || d == Weight(n)
  {
    var n := Max(|a|, |b|);
    var pa := Padded(a, b);
    var fb := FillWord(IsNegative(b));
    var pb := Resize(b, n, fb);
    var r := LoopResult(a, b, CARRY_UNIT);
    var c := Carry(pa, b, fb, CARRY_UNIT, n);
    SumPrefixValue(pa, b, fb, n);
    assert r[..n] == r && pa[..n] == pa && pb[..n] == pb;
    assert c * Weight(n) == 0 || c * Weight(n) == Weight(n);
  }

  /** Padding this with its own fill word keeps its value and its sign. */
  lemma {:induction false} PaddedValue(a: seq<Limb>, b: seq<Limb>)
    requires |a| > 0
    ensures ToInt(Padded(a, b)) == ToInt(a) && IsNegative(Padded(a, b)) == IsNegative(a)
  {
    if |a| < |b| {
      ResizeValue(a, |b|);
    }
  }

  /** The wrapped sum: the value of LoopResult, which is A + B reduced into the
      range of n limbs. */
  lemma {:induction false} LoopResultValue(a: seq<Limb>, b: seq<Limb>)
    requires |a| > 0 && |b| > 0
    ensures var r := LoopResult(a, b, CARRY_UNIT);
      var s := ToInt(a) + ToInt(b);
      var w := Weight(|r|);
      && 2 * Half(r) == w
      && -Half(r) <= ToInt(a) < Half(r) && -Half(r) <= ToInt(b) < Half(r)
      && ToInt(r) == (if s >= Half(r) then s - w else if s < -Half(r) then s + w else s)
  {
    var n := Max(|a|, |b|);
    var pa := Padded(a, b);
    var pb := Resize(b, n, FillWord(IsNegative(b)));
    var r := LoopResult(a, b, CARRY_UNIT);
    PaddedValue(a, b);
    ResizeValue(b, n);
    LoopResultUnsigned(a, b);
    ValueByHalf(pa);
    ValueByHalf(pb);
    ValueByHalf(r);
    var d := Unsigned(pa) + Unsigned(pb) - Unsigned(r);
    WrapArith(ToInt(a), ToInt(b), ToInt(r), Unsigned(r), d, Weight(n), Half(r),
              IsNegative(a), IsNegative(b));
  }

  /** The arithmetic behind LoopResultValue: a sum taken modulo w and read
      back in [-h, h) is the true sum wrapped into that range. */
  lemma {:induction false} WrapArith(va: int, vb: int, vr: int, ur: int, cw: int, w: int, h: int, an: bool, bn: bool)
    requires w == 2 * h && 0 <= ur < w && (cw == 0 || cw == w)
    requires -h <= va < h && -h <= vb < h
    requires an <==> va < 0
    requires bn <==> vb < 0
    requires ur + cw == va + (if an then w else 0) + vb + (if bn then w else 0)
    requires vr == ur - (if ur >= h then w else 0)
    ensures vr == (if va + vb >= h then va + vb - w else if va + vb < -h then va + vb + w else va + vb)
  {
  }

  /** Appending a fill word to r: a zero limb keeps the unsigned value, an
      all-ones limb subtracts 2^(64 |r|). */
  lemma {:induction false} AppendFillValue(r: seq<Limb>, negative: bool)
    requires |r| > 0
    ensures ToInt(r + [FillWord(negative)]) == Unsigned(r) - (if negative then Weight(|r|) else 0)
  {
    var f := FillWord(negative);
    var w := Weight(|r|);
    var e := r + [f];
    UnsignedSnoc(r, f);
    assert IsNegative(e) == negative by {
      assert e[|e| - 1] == f;
    }
    assert Weight(|e|) == BASE * w;
    FillArith(Unsigned(r), f, w, negative);
  }

  lemma {:induction false} FillArith(u: int, f: int, w: int, negative: bool)
    requires negative ==> f == MAX_LIMB
    requires !negative ==> f == 0
    ensures u + f * w - (if negative then BASE * w else 0) == u - (if negative then w else 0)
  {
  }

  /** The value of +=.  It is the exact sum in every case but one: when this
      is negative, other is not, and the sum is not negative, the test
      `(thisNegative or otherNegative) != resNegative` fires and appends an
      all-ones limb, which subtracts 2^(64 n). */
  lemma {:induction false} AddValue(a: seq<Limb>, b: seq<Limb>)
    requires |a| > 0 && |b| > 0
    ensures var s := ToInt(a) + ToInt(b);
      ToInt(Add(a, b))
        == if IsNegative(a) && !IsNegative(b) && s >= 0 then s - Weight(Max(|a|, |b|)) else s
  {
    var r := LoopResult(a, b, CARRY_UNIT);
    LoopResultValue(a, b);
    ToIntRange(a);
    ToIntRange(b);
    ToIntRange(r);
    AppendFillValue(r, IsNegative(a));
  }

  /** With the same-sign overflow test the sum is always exact. */
  lemma {:induction false} AddIntendedValue(a: seq<Limb>, b: seq<Limb>)
    requires |a| > 0 && |b| > 0
    ensures ToInt(AddIntended(a, b)) == ToInt(a) + ToInt(b)
  {
    var r := LoopResult(a, b, CARRY_UNIT);
    LoopResultValue(a, b);
    ToIntRange(a);
    ToIntRange(b);
    ToIntRange(r);
    AppendFillValue(r, IsNegative(a));
  }

  /** x += x doubles x: both operands have the same sign. */
  lemma {:induction false} AddSelfValue(a: seq<Limb>)
    requires |a| > 0
    ensures ToInt(Add(a, a)) == 2 * ToInt(a)
  {
    AddValue(a, a);
  }

  // ---------------------------------------------------------------------------
  // Concrete cases

  /** -1 += 1 gives the limbs [0, all ones], which is -2^64, not 0. */
  lemma {:induction false} MinusOnePlusOne(a: seq<Limb>, b: seq<Limb>)
    requires a == [MAX_LIMB] && b == [1]
    ensures ToInt(a) == -1 && ToInt(b) == 1
    ensures Add(a, b) == [0, MAX_LIMB]
    ensures ToInt(Add(a, b)) == -(BASE as int)
    ensures ToInt(AddIntended(a, b)) == 0
  {
    var r := LoopResult(a, b, CARRY_UNIT);
    assert Carry(a, b, 0, CARRY_UNIT, 0) == 0;
    assert r[0] == 0;
    assert r == [0];
    UnsignedSnoc([], MAX_LIMB);
    UnsignedSnoc([], 1);
    assert [] + [MAX_LIMB] == a && [] + [1] == b;
    AddValue(a, b);
    AddIntendedValue(a, b);
  }

  /** Carrying by `>> CHAR_BIT` instead of by the limb width: 255 + 1 in two
      limbs carries 1 into the upper limb although nothing overflowed 64 bits,
      giving 2^64 + 256 instead of 256. */
  lemma {:induction false} CharBitCarryCounterexample(a: seq<Limb>, b: seq<Limb>)
    requires a == [0xFF, 0] && b == [1, 0]
    ensures ToInt(a) + ToInt(b) == 0x100
    ensures AddWith(a, b, CARRY_UNIT_AS_WRITTEN) == [0x100, 1]
    ensures ToInt(AddWith(a, b, CARRY_UNIT_AS_WRITTEN)) == BASE + 0x100
    ensures Add(a, b) == [0x100, 0]
    ensures ToInt(Add(a, b)) == 0x100
  {
    var w := LoopResult(a, b, CARRY_UNIT_AS_WRITTEN);
    assert Carry(a, b, 0, CARRY_UNIT_AS_WRITTEN, 1) == 1;
    assert w[0] == 0x100 && w[1] == 1;
    assert w == [0x100, 1];
    var r := LoopResult(a, b, CARRY_UNIT);
    assert Carry(a, b, 0, CARRY_UNIT, 1) == 0;
    assert r[0] == 0x100 && r[1] == 0;
    assert r == [0x100, 0];
    TwoLimbValue(0xFF, 0);
    TwoLimbValue(1, 0);
    TwoLimbValue(0x100, 1);
    TwoLimbValue(0x100, 0);
  }

  /** A two-limb sequence whose upper limb has the sign bit clear. */
  lemma {:induction false} TwoLimbValue(lo: Limb, hi: Limb)
    requires hi < SIGN_BIT
    ensures ToInt([lo, hi]) == lo + hi * BASE
  {
    UnsignedSnoc([], lo);
    UnsignedSnoc([lo], hi);
    assert [] + [lo] == [lo] && [lo] + [hi] == [lo, hi];
  }
}
