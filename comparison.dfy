/** Comparison: operator== and operator<=>.

    Both walk `lit` over the left operand's limbs and `rit` over the right
    operand's, stepping the two together while both are in range, and stop at
    the first limb pair that differs.  As written, `rit` starts at
    `rightBgIntgr.data.cend()`, so the loop condition fails before the first
    step: == always answers true and <=> always answers equivalent.

    The loop is modelled once, with the limb `rit` starts from as a
    parameter: Equals and Compare start it at the end, as the repository does,
    and EqualsFromBegin and CompareFromBegin start it at the first limb, which
    is what the loop is evidently written for.  Even then the walk compares
    limbs from the least significant one up and only over the shorter
    operand's length, so it is not the numeric order; the lemmas at the end
    say what it is. */
module Comparison {
  import opened Limbs
  import opened Addition
  import opened BigIntegers

  /** std::weak_ordering. */
  datatype Ordering = Less | Equivalent | Greater

  /** Every limb position the two sequences share holds the same limb; for
      sequences of one length, that is equality. */
  predicate CommonLimbsEqual(l: seq<Limb>, r: seq<Limb>)
    ensures |l| == |r| ==> (CommonLimbsEqual(l, r) <==> l == r)
  {
    forall k :: 0 <= k < |l| && k < |r| ==> l[k] == r[k]
  }

  /** Two sequences that agree on their first limb agree on all shared
      positions exactly when their tails do. */
  lemma {:induction false} CommonLimbsTail(l: seq<Limb>, r: seq<Limb>)
    requires |l| > 0 && |r| > 0 && l[0] == r[0]
    ensures CommonLimbsEqual(l, r) <==> CommonLimbsEqual(l[1..], r[1..])
  {
    if CommonLimbsEqual(l[1..], r[1..]) {
      forall k | 0 <= k < |l| && k < |r| ensures l[k] == r[k] {
        if k > 0 {
          assert l[1..][k - 1] == l[k] && r[1..][k - 1] == r[k];
        }
      }
    }
    if CommonLimbsEqual(l, r) {
      forall k | 0 <= k < |l| - 1 && k < |r| - 1 ensures l[1..][k] == r[1..][k] {
        assert l[k + 1] == r[k + 1];
      }
    }
  }

  /** Limbs compared from the least significant one up: the first pair that
      differs decides, and Equivalent when the shorter sequence runs out, so
      the answer is Equivalent exactly when == holds. */
  function CompareLimbs(l: seq<Limb>, r: seq<Limb>): (o: Ordering)
    ensures o == Equivalent <==> CommonLimbsEqual(l, r)
    decreases |l|
  {
    if |l| == 0 || |r| == 0 then Equivalent
    else if l[0] < r[0] then Less
    else if l[0] > r[0] then Greater
    else
      CommonLimbsTail(l, r);
      CompareLimbs(l[1..], r[1..])
  }

  // ---------------------------------------------------------------------------
  // The loops

  /** The loop of operator== with `rit` starting at limb `start` of right. */
  method EqualsFrom(left: BigInteger, right: BigInteger, start: nat) returns (eq: bool)
    requires start <= |right.data|
    ensures eq <==> CommonLimbsEqual(left.data, right.data[start..])
  {
    var lit: nat, rit: nat := 0, start;
    while lit < |left.data| && rit < |right.data|
      invariant rit == start + lit && lit <= |left.data| && rit <= |right.data|
      invariant forall k :: 0 <= k < lit ==> left.data[k] == right.data[start + k]
      decreases |left.data| - lit
    {
      var lv: int := if lit < |left.data| then left.data[lit] else 0;
      var rv: int := if rit < |right.data| then right.data[rit] else 0;
      if lv != rv {
        assert right.data[start..][lit] == right.data[rit];
        return false;
      }
      lit, rit := lit + 1, rit + 1;
    }
    assert forall k :: 0 <= k < |left.data| && k < |right.data[start..]| ==>
      right.data[start..][k] == right.data[start + k];
    return true;
  }

  /** The loop of operator<=> with `rit` starting at limb `start` of right. */
  method CompareFrom(left: BigInteger, right: BigInteger, start: nat) returns (ord: Ordering)
    requires start <= |right.data|
    ensures ord == CompareLimbs(left.data, right.data[start..])
  {
    var lit: nat, rit: nat := 0, start;
    while lit < |left.data| && rit < |right.data|
      invariant rit == start + lit && lit <= |left.data| && rit <= |right.data|
      invariant CompareLimbs(left.data, right.data[start..])
        == CompareLimbs(left.data[lit..], right.data[rit..])
      decreases |left.data| - lit
    {
      var lv: int := if lit < |left.data| then left.data[lit] else 0;
      var rv: int := if rit < |right.data| then right.data[rit] else 0;
      assert left.data[lit..][0] == lv && right.data[rit..][0] == rv;
      if lv < rv {
        return Less;
      }
      if lv > rv {
        return Greater;
      }
      assert left.data[lit..][1..] == left.data[lit + 1..];
      assert right.data[rit..][1..] == right.data[rit + 1..];
      lit, rit := lit + 1, rit + 1;
    }
    return Equivalent;
  }

  /** operator== as written: `rit` starts at the end of right, so the loop
      body never runs and every two numbers compare equal. */
  method Equals(left: BigInteger, right: BigInteger) returns (eq: bool)
    ensures eq
  {
    eq := EqualsFrom(left, right, |right.data|);
  }

  /** operator<=> as written: every two numbers compare equivalent. */
  method Compare(left: BigInteger, right: BigInteger) returns (ord: Ordering)
    ensures ord == Equivalent
  {
    ord := CompareFrom(left, right, |right.data|);
  }

  /** operator== with `rit` starting at the first limb of right. */
  method EqualsFromBegin(left: BigInteger, right: BigInteger) returns (eq: bool)
    ensures eq <==> CommonLimbsEqual(left.data, right.data)
  {
    eq := EqualsFrom(left, right, 0);
    assert right.data[0..] == right.data;
  }

  /** operator<=> with `rit` starting at the first limb of right. */
  method CompareFromBegin(left: BigInteger, right: BigInteger) returns (ord: Ordering)
    ensures ord == CompareLimbs(left.data, right.data)
  {
    ord := CompareFrom(left, right, 0);
    assert right.data[0..] == right.data;
  }

  // ---------------------------------------------------------------------------
  // What the from-the-first-limb comparisons mean

  /** == from the first limb is reflexive and symmetric, and <=> answers
      equivalent for a number compared with itself. */
  lemma {:induction false} EqualityLaws(l: seq<Limb>, r: seq<Limb>)
    ensures CommonLimbsEqual(l, l) && CompareLimbs(l, l) == Equivalent
    ensures CommonLimbsEqual(l, r) <==> CommonLimbsEqual(r, l)
  {
  }

  /** Swapping the operands swaps less and greater. */
  lemma {:induction false} CompareSwap(l: seq<Limb>, r: seq<Limb>)
    ensures CompareLimbs(l, r) == Less <==> CompareLimbs(r, l) == Greater
    ensures CompareLimbs(l, r) == Equivalent <==> CompareLimbs(r, l) == Equivalent
    decreases |l|
  {
    if |l| > 0 && |r| > 0 && l[0] == r[0] {
      CompareSwap(l[1..], r[1..]);
    }
  }

  /** The lowest limb at which the operands differ decides the order. */
  lemma {:induction false} LowestDifferenceDecides(l: seq<Limb>, r: seq<Limb>, k: nat)
    requires k < |l| && k < |r| && l[..k] == r[..k]
    ensures l[k] < r[k] ==> CompareLimbs(l, r) == Less
    ensures l[k] > r[k] ==> CompareLimbs(l, r) == Greater
    decreases k
  {
    if k > 0 {
      assert l[0] == l[..k][0] && r[0] == r[..k][0];
      assert l[1..][..k - 1] == l[..k][1..] && r[1..][..k - 1] == r[..k][1..];
      LowestDifferenceDecides(l[1..], r[1..], k - 1);
    }
  }

  /** Unsigned values of equal length determine their limbs. */
  lemma {:induction false} UnsignedInjective(l: seq<Limb>, r: seq<Limb>)
    requires |l| == |r| && Unsigned(l) == Unsigned(r)
    ensures l == r
    decreases |l|
  {
    if |l| > 0 {
      var n := |l| - 1;
      UnsignedBound(l[..n]);
      UnsignedBound(r[..n]);
      ModUnique(Unsigned(l), Weight(n), l[n], Unsigned(l[..n]));
      ModUnique(Unsigned(r), Weight(n), r[n], Unsigned(r[..n]));
      UnsignedInjective(l[..n], r[..n]);
      assert l == l[..n] + [l[n]] && r == r[..n] + [r[n]];
    }
  }

  /** For operands of the same length, == from the first limb is numeric
      equality. */
  lemma {:induction false} SameLengthEquality(l: seq<Limb>, r: seq<Limb>)
    requires 0 < |l| == |r|
    ensures CommonLimbsEqual(l, r) <==> l == r
    ensures CommonLimbsEqual(l, r) <==> ToInt(l) == ToInt(r)
  {
    if ToInt(l) == ToInt(r) {
      ToIntRange(l);
      ToIntRange(r);
      UnsignedInjective(l, r);
    }
    if CommonLimbsEqual(l, r) {
      assert forall k :: 0 <= k < |l| ==> l[k] == r[k];
    }
  }

  /** Equivalent is not transitive across lengths, so even from the first
      limb <=> is not a weak ordering: [1, 5] and [1, 6] are each equivalent
      to [1], yet [1, 5] is less than [1, 6]. */
  lemma {:induction false} EquivalentNotTransitive(a: seq<Limb>, b: seq<Limb>, c: seq<Limb>)
    requires a == [1, 5] && b == [1] && c == [1, 6]
    ensures CompareLimbs(a, b) == Equivalent && CompareLimbs(b, c) == Equivalent
    ensures CompareLimbs(a, c) == Less
  {
    assert a[1..] == [5] && c[1..] == [6] && b[1..] == [];
  }

  /** Limbs past the shorter operand are never looked at: 0 (limbs [0]) and
      2^64 (limbs [0, 1]) compare equal and equivalent. */
  lemma {:induction false} SurplusLimbsIgnored(l: seq<Limb>, r: seq<Limb>)
    requires l == [0] && r == [0, 1]
    ensures CommonLimbsEqual(l, r) && CompareLimbs(l, r) == Equivalent
    ensures ToInt(l) == 0 && ToInt(r) == BASE
  {
    TwoLimbValue(0, 1);
    UnsignedSnoc([], 0);
    assert [] + [0] == l;
  }

  /** The least significant limb decides first, so the order is not the
      numeric one: 1 (limbs [1, 0]) compares greater than 2^64 (limbs [0, 1]). */
  lemma {:induction false} NotNumericOrder(l: seq<Limb>, r: seq<Limb>)
    requires l == [1, 0] && r == [0, 1]
    ensures ToInt(l) == 1 && ToInt(r) == BASE
    ensures CompareLimbs(l, r) == Greater
  {
    TwoLimbValue(1, 0);
    TwoLimbValue(0, 1);
  }
}
