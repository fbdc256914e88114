/** BigIntegers: the BigInteger class itself.

    An object holds one field, `data`, the vector of 64-bit limbs, least
    significant first, read as a two's-complement number.  Every operator that
    the repository defines updates `data` in place; each method below is proved
    to leave `data` equal to the value function of the Addition, Bitwise or
    Multiplication module applied to the limbs it started from, and the lemmas
    of those modules say what those functions mean. */
module BigIntegers {
  import opened Limbs
  import opened Bitwise
  import opened Addition
  import opened Multiplication

  /** copy(integral) for a signed argument: the value converted to unsigned
      long long, that is, taken modulo 2^64.  Read back as one limb it is the
      argument again, sign included. */
  function SignedToLimb(v: int): (w: Limb)
    requires -(SIGN_BIT as int) <= v < SIGN_BIT
    ensures ToInt([w]) == v
    ensures IsNegative([w]) <==> v < 0
  {
    UnsignedSnoc([], v % BASE);
    assert [] + [v % BASE] == [v % BASE];
    v % BASE
  }

  /** copy(unsigned_integral) stores `{v, 0}`: the zero limb keeps a value with
      the top bit set non-negative, where the single limb `{v}` would read as
      v - 2^64. */
  lemma {:induction false} UnsignedCopyValue(v: Limb)
    ensures !IsNegative([v, 0]) && ToInt([v, 0]) == v
    ensures v >= SIGN_BIT ==> ToInt([v]) == v - BASE
  {
    TwoLimbValue(v, 0);
    UnsignedSnoc([], v);
    assert [] + [v] == [v];
  }

  /** One step of the += loop: limb i of the sum and the carry out of it. */
  lemma {:induction false} SumLimbsStep(a: seq<Limb>, b: seq<Limb>, fb: Limb, i: nat, t: int)
    requires i < |a|
    requires t == a[i] + LimbAt(b, i, fb) + Carry(a, b, fb, CARRY_UNIT, i)
    ensures SumLimbs(a, b, fb, CARRY_UNIT)[i] == t % BASE
    ensures Carry(a, b, fb, CARRY_UNIT, i + 1) == t / CARRY_UNIT
  {
  }

  /** Writing limb i of a loop that rewrites s into r position by position. */
  lemma {:induction false} PrefixStep<T>(d: seq<T>, r: seq<T>, s: seq<T>, i: nat, v: T)
    requires |d| == |r| == |s| && i < |d|
    requires d[..i] == r[..i] && d[i..] == s[i..] && v == r[i]
    ensures d[i := v][..i + 1] == r[..i + 1]
    ensures d[i := v][i + 1..] == s[i + 1..]
  {
    assert d[i := v][..i + 1] == d[..i] + [v];
    assert r[..i + 1] == r[..i] + [r[i]];
  }

  /** The loop of +=: limb i of this (already padded to other's length)
      becomes lv + rv + carry modulo 2^64, rv being other's limb i or other's
      fill word past its end, and the carry out of each limb goes into the
      next. */
  method AddLoop(pa: seq<Limb>, b: seq<Limb>, otherFill: Limb) returns (limbs: seq<Limb>)
    requires |b| <= |pa|
    ensures limbs == SumLimbs(pa, b, otherFill, CARRY_UNIT)
  {
    ghost var sum := SumLimbs(pa, b, otherFill, CARRY_UNIT);
    limbs := pa;
    var carry: nat := 0;
    var i: nat := 0;
    while i < |limbs| || i < |b|
      invariant |limbs| == |pa| && i <= |pa|
      invariant limbs[..i] == sum[..i]
      invariant limbs[i..] == pa[i..]
      invariant carry == Carry(pa, b, otherFill, CARRY_UNIT, i)
      decreases |pa| - i
    {
      var lv := limbs[i];
      var rv := if i < |b| then b[i] else otherFill;
      var t := lv + rv + carry;
      SumLimbsStep(pa, b, otherFill, i, t);
      PrefixStep(limbs, sum, pa, i, t % BASE);
      limbs := limbs[i := t % BASE];
      carry := t / CARRY_UNIT;
      i := i + 1;
    }
  }

  /** One iteration of the loop of *=. */
  lemma {:induction false} MulLoopStep(acc: seq<Limb>, res: seq<Limb>, check: seq<Limb>, i: nat)
    requires |acc| > 0 && |res| > 0 && i < NumBits(check)
    ensures MulLoop(acc, res, check, i)
      == MulLoop(Add(acc, acc), if BitAt(check, i) then Add(res, acc) else res, check, i + 1)
  {
  }

  class BigInteger {
    /** The limbs, least significant first. */
    var data: seq<Limb>

    /** BigInteger(): setZero. */
    constructor ()
      ensures data == [0]
    {
      new;
      SetZero();
    }

    /** BigInteger(intgr) for a signed integral type: copy(intgr). */
    constructor FromSigned(v: int)
      requires -(SIGN_BIT as int) <= v < SIGN_BIT
      ensures data == [SignedToLimb(v)]
    {
      new;
      CopySigned(v);
    }

    /** BigInteger(intgr) for an unsigned integral type: copy(intgr). */
    constructor FromUnsigned(v: Limb)
      ensures data == [v, 0]
    {
      new;
      CopyUnsigned(v);
    }

    /** The implicit copy constructor. */
    constructor Copy(src: BigInteger)
      ensures data == src.data
    {
      data := src.data;
    }

    /** setZero: clear, then push back one zero limb. */
    method SetZero()
      modifies this
      ensures data == [0]
    {
      data := [];
      data := data + [0];
    }

    /** copy(std::integral): `data = {intgr}`. */
    method CopySigned(v: int)
      requires -(SIGN_BIT as int) <= v < SIGN_BIT
      modifies this
      ensures data == [SignedToLimb(v)]
    {
      data := [SignedToLimb(v)];
    }

    /** copy(std::unsigned_integral): `data = {intgr, 0}`. */
    method CopyUnsigned(v: Limb)
      modifies this
      ensures data == [v, 0]
    {
      data := [v, 0];
    }

    /** operator=(signed integral). */
    method AssignSigned(v: int)
      requires -(SIGN_BIT as int) <= v < SIGN_BIT
      modifies this
      ensures data == [SignedToLimb(v)]
    {
      CopySigned(v);
    }

    /** operator=(unsigned integral). */
    method AssignUnsigned(v: Limb)
      modifies this
      ensures data == [v, 0]
    {
      CopyUnsigned(v);
    }

    /** operator+=.  other may be this object itself (x += x).  The loop reads
        limb i of other before it writes limb i of this, so every limb it reads
        is one the two operands started with; the model therefore runs the
        loop on a copy of this object's limbs and stores the copy at the end. */
    method AddAssign(other: BigInteger)
      requires |data| > 0 && |other.data| > 0
      modifies this
      ensures data == Add(old(data), old(other.data))
    {
      var limbs := data;
      var thisNegative := IsNegative(limbs);
      var otherNegative := IsNegative(other.data);
      var thisFill := FillWord(thisNegative);
      var otherFill := FillWord(otherNegative);
      if |limbs| < |other.data| {
        limbs := Resize(limbs, |other.data|, thisFill);
      }
      assert limbs == Padded(data, other.data);
      limbs := AddLoop(limbs, other.data, otherFill);
      var resNegative := IsNegative(limbs);
      if (thisNegative || otherNegative) != resNegative {
        limbs := limbs + [thisFill];
      }
      data := limbs;
    }

    /** operator*=.  `check` is a reference: the multiplier itself, or its
        negation when it is negative.  With x *= x and x non-negative it is
        this object, which setZero resets before the loop reads it; that case
        runs ShiftAddLoopSelf. */
    method MulAssign(other: BigInteger)
      requires |data| > 0 && |other.data| > 0
      modifies this
      ensures other != this ==> data == Mul(old(data), old(other.data))
      ensures other == this ==> data == MulSelf(old(data))
    {
      ghost var a, b := data, other.data;
      var negative := IsNegative(other.data);
      var accumulator: BigInteger;
      if negative {
        accumulator := Negate(this);
      } else {
        accumulator := new BigInteger.Copy(this);
      }
      var negOther: BigInteger;
      if negative {
        negOther := Negate(other);
      } else {
        negOther := new BigInteger.FromSigned(0);
      }
      var check := if negative then negOther else other;
      assert check.data == Multiplier(b);
      SetZero();
      if check == this {
        ShiftAddLoopSelf(accumulator);
      } else {
        ShiftAddLoop(accumulator, check);
      }
    }

    /** The loop of *=: for i below check.numBits(), add the accumulator into
        this when check[i] is set, then shift the accumulator left by one. */
    method ShiftAddLoop(accumulator: BigInteger, check: BigInteger)
      requires accumulator != this && check != this && check != accumulator
      requires |data| > 0 && |accumulator.data| > 0
      modifies this, accumulator
      ensures data == MulLoop(old(accumulator.data), old(data), check.data, 0)
    {
      ghost var product := MulLoop(accumulator.data, data, check.data, 0);
      var i: nat := 0;
      while i < NumBits(check.data)
        invariant |data| > 0 && |accumulator.data| > 0
        invariant MulLoop(accumulator.data, data, check.data, i) == product
        decreases NumBits(check.data) - i
      {
        ghost var acc0, res0 := accumulator.data, data;
        MulLoopStep(acc0, res0, check.data, i);
        if BitAt(check.data, i) {
          AddAssign(accumulator);
        }
        assert data == if BitAt(check.data, i) then Add(res0, acc0) else res0;
        accumulator.AddAssign(accumulator);
        i := i + 1;
      }
    }

    /** The loop of *= when `check` is this object, just reset to [0]:
        check[i] is never set, so nothing is added to this, and only the
        accumulator keeps doubling. */
    method ShiftAddLoopSelf(accumulator: BigInteger)
      requires accumulator != this
      requires data == [0] && |accumulator.data| > 0
      modifies this, accumulator
      ensures data == [0]
      ensures data == MulLoop(old(accumulator.data), [0], [0], 0)
    {
      ghost var product := MulLoop(accumulator.data, [0], [0], 0);
      ZeroHasNoBits(data);
      var i: nat := 0;
      while i < NumBits(data)
        invariant data == [0] && |accumulator.data| > 0
        invariant MulLoop(accumulator.data, data, data, i) == product
        decreases NumBits(data) - i
      {
        MulLoopStep(accumulator.data, data, data, i);
        if BitAt(data, i) {
          // `*this += accumulator`: never reached, check[i] reads [0]
          assert false;
        }
        accumulator.AddAssign(accumulator);
        i := i + 1;
      }
    }

    /** operator&=: shrink this to other's length, then AND limb by limb.  As
        in +=, limb i of other is read before limb i of this is written, so x
        &= x is covered by running the loop on a copy of this object's limbs. */
    method AndAssign(other: BigInteger)
      modifies this
      ensures data == AndLimbs(old(data), old(other.data))
    {
      ghost var a, b := data, other.data;
      var limbs := data;
      if |limbs| > |other.data| {
        limbs := Resize(limbs, |other.data|, 0);
      }
      var i: nat := 0;
      while i < |limbs| && i < |other.data|
        invariant |limbs| == Min(|a|, |b|) && i <= |limbs|
        invariant other.data == b
        invariant forall j :: 0 <= j < i ==> limbs[j] == And(a[j], b[j])
        invariant forall j :: i <= j < |limbs| ==> limbs[j] == a[j]
        decreases |limbs| - i
      {
        limbs := limbs[i := And(limbs[i], other.data[i])];
        i := i + 1;
      }
      data := limbs;
    }

    /** operator|=. */
    method OrAssign(other: BigInteger)
      modifies this
      ensures data == OrLimbs(old(data), old(other.data))
    {
      ZipAppendAssign(other, Or);
    }

    /** operator^=. */
    method XorAssign(other: BigInteger)
      modifies this
      ensures data == XorLimbs(old(data), old(other.data))
    {
      ZipAppendAssign(other, Xor);
    }

    /** The common body of |= and ^=: combine the common prefix limb by limb,
        then copy other's surplus limbs, if it has any, onto the end. */
    method ZipAppendAssign(other: BigInteger, op: (Limb, Limb) -> Limb)
      modifies this
      ensures data == ZipAppend(old(data), old(other.data), op)
    {
      ghost var a, b := data, other.data;
      var limbs := data;
      var i: nat := 0;
      while i < |limbs| && i < |other.data|
        invariant |limbs| == |a| && i <= |a| && i <= |b|
        invariant other.data == b
        invariant forall j :: 0 <= j < i ==> limbs[j] == op(a[j], b[j])
        invariant forall j :: i <= j < |a| ==> limbs[j] == a[j]
        decreases |limbs| - i
      {
        limbs := limbs[i := op(limbs[i], other.data[i])];
        i := i + 1;
      }
      if i < |other.data| {
        limbs := limbs + other.data[i..];
      }
      data := limbs;
    }
  }

  /** operator~(BigInteger): flip every limb of a copy. */
  method Complement(x: BigInteger) returns (r: BigInteger)
    ensures fresh(r)
    ensures r.data == NotLimbs(x.data)
  {
    r := new BigInteger.Copy(x);
    var i := 0;
    while i < |r.data|
      invariant |r.data| == |x.data| && i <= |r.data|
      invariant forall k :: 0 <= k < i ==> r.data[k] == Not(x.data[k])
      invariant forall k :: i <= k < |r.data| ==> r.data[k] == x.data[k]
      decreases |r.data| - i
    {
      r.data := r.data[i := Not(r.data[i])];
      i := i + 1;
    }
    assert r.data == NotLimbs(x.data);
  }

  /** operator-(BigInteger): `~x + 1`, the sum taken as copy-then-+=. */
  method Negate(x: BigInteger) returns (r: BigInteger)
    requires |x.data| > 0
    ensures fresh(r)
    ensures r.data == Neg(x.data)
  {
    r := Complement(x);
    var one := new BigInteger.FromSigned(1);
    r.AddAssign(one);
  }
}
