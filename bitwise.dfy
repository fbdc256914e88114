/** Bitwise: what operator~, &=, |= and ^= do to the limb sequence.

    operator~ flips every limb and keeps the length.  &= first truncates this
    to other's length and ANDs limb by limb, so surplus limbs on either side
    are dropped.  |= and ^= combine the common prefix limb by limb, leave this
    object's own surplus limbs untouched, and append other's surplus limbs
    verbatim: nothing is sign-extended. */
module Bitwise {
  import opened Limbs

  /** operator~: every limb flipped. */
  function NotLimbs(s: seq<Limb>): (r: seq<Limb>)
    ensures |r| == |s|
    ensures forall i :: 0 <= i < |s| ==> r[i] as int + s[i] as int == MAX_LIMB
  {
    seq(|s|, i requires 0 <= i < |s| => Not(s[i]))
  }

  /** The limb-wise combination of the common prefix (the loops of &=, |=, ^=). */
  function Zip(a: seq<Limb>, b: seq<Limb>, op: (Limb, Limb) -> Limb): (r: seq<Limb>)
    ensures |r| == Min(|a|, |b|)
    ensures forall i :: 0 <= i < |r| ==> r[i] == op(a[i], b[i])
  {
    seq(Min(|a|, |b|), i requires 0 <= i < Min(|a|, |b|) => op(a[i], b[i]))
  }

  /** The loop of |= / ^= followed by the std::copy of other's surplus limbs. */
  function ZipAppend(a: seq<Limb>, b: seq<Limb>, op: (Limb, Limb) -> Limb): (r: seq<Limb>)
    ensures |r| == Max(|a|, |b|)
    ensures forall i :: 0 <= i < |a| && i < |b| ==> r[i] == op(a[i], b[i])
    ensures forall i :: |b| <= i < |a| ==> r[i] == a[i]
    ensures forall i :: |a| <= i < |b| ==> r[i] == b[i]
  {
    Zip(a, b, op) + (if |b| <= |a| then a[|b|..] else b[|a|..])
  }

  /** &=: this truncated to other's length, then ANDed limb by limb. */
  function AndLimbs(a: seq<Limb>, b: seq<Limb>): (r: seq<Limb>)
    ensures |r| == Min(|a|, |b|)
    ensures forall i :: 0 <= i < |r| ==> r[i] == And(a[i], b[i])
  {
    Zip(a, b, And)
  }

  /** |=. */
  function OrLimbs(a: seq<Limb>, b: seq<Limb>): (r: seq<Limb>)
    ensures |r| == Max(|a|, |b|)
    ensures forall i :: 0 <= i < |a| && i < |b| ==> r[i] == Or(a[i], b[i])
    ensures forall i :: |a| <= i < |b| ==> r[i] == b[i]
  {
    ZipAppend(a, b, Or)
  }

  /** ^=. */
  function XorLimbs(a: seq<Limb>, b: seq<Limb>): (r: seq<Limb>)
    ensures |r| == Max(|a|, |b|)
    ensures forall i :: 0 <= i < |a| && i < |b| ==> r[i] == Xor(a[i], b[i])
    ensures forall i :: |a| <= i < |b| ==> r[i] == b[i]
  {
    ZipAppend(a, b, Xor)
  }

  // ---------------------------------------------------------------------------
  // operator~

  /** ~ is an involution on limb sequences. */
  lemma {:induction false} NotInvolution(s: seq<Limb>)
    ensures NotLimbs(NotLimbs(s)) == s
  {
    assert forall i :: 0 <= i < |s| ==> NotLimbs(NotLimbs(s))[i] == s[i];
  }

  lemma {:induction false} NotUnsigned(s: seq<Limb>)
    ensures Unsigned(NotLimbs(s)) == Weight(|s|) - 1 - Unsigned(s)
  {
    if |s| > 0 {
      var n := |s| - 1;
      var w := Weight(n);
      assert NotLimbs(s)[..n] == NotLimbs(s[..n]);
      NotUnsigned(s[..n]);
      assert (MAX_LIMB - s[n]) * w == MAX_LIMB * w - s[n] * w;
    }
  }

  /** At the same width, ~x is -x - 1 and has the opposite sign. */
  lemma {:induction false} NotValue(s: seq<Limb>)
    requires |s| > 0
    ensures IsNegative(NotLimbs(s)) == !IsNegative(s)
    ensures ToInt(NotLimbs(s)) == -ToInt(s) - 1
  {
    NotUnsigned(s);
  }

  // ---------------------------------------------------------------------------
  // &=

  /** &= is idempotent and commutative at the limb level; its length is the
      shorter operand's, so a zero limb clears the whole number. */
  lemma {:induction false} AndLaws(a: seq<Limb>, b: seq<Limb>)
    ensures |AndLimbs(a, b)| == Min(|a|, |b|)
    ensures AndLimbs(a, a) == a
    ensures AndLimbs(a, b) == AndLimbs(b, a)
    ensures |a| > 0 ==> AndLimbs(a, [0]) == [0]
  {
    forall i | 0 <= i < |a| ensures AndLimbs(a, a)[i] == a[i] {
      LimbLaws(a[i], a[i]);
    }
    forall i | 0 <= i < Min(|a|, |b|) ensures AndLimbs(a, b)[i] == AndLimbs(b, a)[i] {
      LimbLaws(a[i], b[i]);
    }
    if |a| > 0 {
      LimbLaws(a[0], 0);
    }
  }

  // ---------------------------------------------------------------------------
  // |= and ^=

  /** |= is idempotent, and commutative at the limb level because either
      operand's surplus limbs are kept verbatim. */
  lemma {:induction false} OrLaws(a: seq<Limb>, b: seq<Limb>)
    ensures OrLimbs(a, a) == a
    ensures OrLimbs(a, b) == OrLimbs(b, a)
  {
    forall i | 0 <= i < |a| ensures OrLimbs(a, a)[i] == a[i] {
      LimbLaws(a[i], a[i]);
    }
    forall i | 0 <= i < Max(|a|, |b|) ensures OrLimbs(a, b)[i] == OrLimbs(b, a)[i] {
      if i < |a| && i < |b| {
        LimbLaws(a[i], b[i]);
      }
    }
  }

  /** x ^= x leaves as many limbs as x had, every one of them zero, so the
      value is 0; ^= is commutative at the limb level. */
  lemma {:induction false} XorLaws(a: seq<Limb>, b: seq<Limb>)
    ensures XorLimbs(a, a) == seq(|a|, _ => 0)
    ensures |a| > 0 ==> ToInt(XorLimbs(a, a)) == 0
    ensures XorLimbs(a, b) == XorLimbs(b, a)
  {
    forall i | 0 <= i < |a| ensures XorLimbs(a, a)[i] == 0 {
      LimbLaws(a[i], a[i]);
    }
    forall i | 0 <= i < Max(|a|, |b|) ensures XorLimbs(a, b)[i] == XorLimbs(b, a)[i] {
      if i < |a| && i < |b| {
        LimbLaws(a[i], b[i]);
      }
    }
    if |a| > 0 {
      ZerosValue(|a|);
    }
  }

  lemma {:induction false} ZerosValue(n: nat)
    ensures Unsigned(seq(n, _ => 0)) == 0
  {
    if n > 0 {
      assert seq(n, _ => 0)[..n - 1] == seq(n - 1, _ => 0);
      ZerosValue(n - 1);
    }
  }

  /** ^= with an operand no longer than this undoes itself. */
  lemma {:induction false} XorCancel(a: seq<Limb>, b: seq<Limb>)
    requires |b| <= |a|
    ensures XorLimbs(XorLimbs(a, b), b) == a
  {
    forall i | 0 <= i < |b| ensures XorLimbs(XorLimbs(a, b), b)[i] == a[i] {
      LimbLaws(a[i], b[i]);
    }
  }

  /** |= zero-extends other's missing limbs instead of sign-extending them: a
      negative one-limb number ORed with a positive two-limb number whose low
      limb is zero comes out positive, although in two's complement the OR of
      a negative number with anything is negative: for -1 | 2^64 the code
      gives 2^65 - 1 where two's complement gives -1. */
  lemma {:induction false} OrZeroExtends(a: seq<Limb>, b: seq<Limb>)
    requires |a| == 1 && IsNegative(a)
    requires |b| == 2 && b[0] == 0 && 0 < b[1] < SIGN_BIT
    ensures ToInt(a) < 0 < ToInt(b)
    ensures OrLimbs(a, b) == [a[0], b[1]]
    ensures !IsNegative(OrLimbs(a, b)) && ToInt(OrLimbs(a, b)) == a[0] + b[1] * BASE
  {
    var r := OrLimbs(a, b);
    ToIntRange(a);
    ToIntRange(b);
    LimbLaws(a[0], b[0]);
    assert r[0] == a[0] && r[1] == b[1];
    assert r == [a[0], b[1]];
    UnsignedSnoc([], a[0]);
    UnsignedSnoc([a[0]], b[1]);
    assert [] + [a[0]] == [a[0]] && [a[0]] + [b[1]] == r;
  }

}
