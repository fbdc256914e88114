/** Limbs: the representation under BigInteger.

    A BigInteger is a sequence of 64-bit unsigned words ("limbs"), least
    significant first.  The top bit of the last limb is the sign, so the
    sequence reads as a two's-complement number of 64 * |s| bits.  This module
    holds the word type and its bit operations, the read-only queries
    (bNegative, numBits, operator[]), the fill word, std::vector::resize, and
    the ghost meaning of a limb sequence: its unsigned and two's-complement
    values. */
module Limbs {

  /** CHAR_BIT: the bit-query code and numBits use this as their width. */
  const CHAR_BIT: nat := 8
  /** sizeof(unsigned long long). */
  const LIMB_BYTES: nat := 8
  /** dataTypeBits = sizeof(dataType) * CHAR_BIT. */
  const LIMB_BITS: nat := 64
  const BASE: nat := 0x1_0000_0000_0000_0000
  const SIGN_BIT: nat := 0x8000_0000_0000_0000
  const MAX_LIMB: nat := 0xFFFF_FFFF_FFFF_FFFF

  /** dataType = unsigned long long. */
  type Limb = x: int | 0 <= x < 0x1_0000_0000_0000_0000

  function Max(a: nat, b: nat): nat { if a < b then b else a }
  function Min(a: nat, b: nat): nat { if a < b then a else b }

  // ---------------------------------------------------------------------------
  // Powers of two and single bits

  function Pow2(k: nat): (r: nat)
    ensures r > 0
  {
    if k == 0 then 1 else 2 * Pow2(k - 1)
  }

  lemma {:induction false} Pow2Add(a: nat, b: nat)
    ensures Pow2(a + b) == Pow2(a) * Pow2(b)
  {
    if a > 0 {
      Pow2Add(a - 1, b);
      assert Pow2(a + b) == 2 * Pow2(a - 1 + b);
    }
  }

  /** The word constants agree with a 64-bit unsigned long long. */
  /** A byte holds CHAR_BIT bits: 2^8 = 256 values. */
  lemma ByteWidth()
    ensures Pow2(CHAR_BIT) == 0x100
  {
  }

  lemma {:induction false} LimbWidth()
    ensures LIMB_BITS == LIMB_BYTES * CHAR_BIT && Pow2(CHAR_BIT) == 0x100
    ensures Pow2(LIMB_BITS) == BASE && Pow2(LIMB_BITS - 1) == SIGN_BIT
    ensures MAX_LIMB == BASE - 1 && BASE == 2 * SIGN_BIT
  {
    assert Pow2(8) == 0x100;
    Pow2Add(8, 8);
    assert Pow2(16) == 0x1_0000;
    Pow2Add(16, 16);
    assert Pow2(32) == 0x1_0000_0000;
    Pow2Add(32, 32);
    assert Pow2(64) == BASE;
    assert Pow2(64) == 2 * Pow2(63);
  }

  /** Bit k of x, as `x & (1 << k)` tests it: the low bit of x shifted right k times. */
  predicate TestBit(x: nat, k: nat)
  {
    if k == 0 then x % 2 == 1 else TestBit(x / 2, k - 1)
  }

  lemma {:induction false} TestBitZero(k: nat)
    ensures !TestBit(0, k)
  {
    if k > 0 {
      TestBitZero(k - 1);
    }
  }

  /** Division and remainder are determined by any quotient and remainder in range. */
  lemma {:induction false} ModUnique(x: int, d: int, q: int, r: int)
    requires d > 0 && 0 <= r < d && x == q * d + r
    ensures x % d == r && x / d == q
  {
    var q0, r0 := x / d, x % d;
    assert (q - q0) * d == r0 - r;
    if q > q0 {
      MulMono(1, q - q0, d);
    } else if q < q0 {
      MulMono(1, q0 - q, d);
    }
  }

  /** Halving first: x / 2p and x % 2p in terms of x / 2. */
  lemma {:induction false} DivHalve(x: nat, p: nat)
    requires p > 0
    ensures x / (2 * p) == (x / 2) / p
    ensures x % (2 * p) == 2 * ((x / 2) % p) + x % 2
  {
    var q, r := (x / 2) / p, (x / 2) % p;
    assert x == q * (2 * p) + (2 * r + x % 2) by {
      assert x / 2 == q * p + r;
      assert q * (2 * p) == 2 * (q * p);
    }
    ModUnique(x, 2 * p, q, 2 * r + x % 2);
  }

  /** Bit k is the low bit of x / 2^k. */
  lemma {:induction false} TestBitDiv(x: nat, k: nat)
    ensures TestBit(x, k) <==> (x / Pow2(k)) % 2 == 1
  {
    if k > 0 {
      TestBitDiv(x / 2, k - 1);
      DivHalve(x, Pow2(k - 1));
    }
  }

  /** bNegative's mask `1ull << 63` picks the bit that makes a word at least 2^63. */
  lemma {:induction false} SignIsTopBit(x: Limb)
    ensures TestBit(x, LIMB_BITS - 1) <==> x >= SIGN_BIT
  {
    LimbWidth();
    TestBitDiv(x, LIMB_BITS - 1);
  }

  // ---------------------------------------------------------------------------
  // Bitwise operations on k-bit words, bit by bit from the bottom

  function NotBits(x: nat, k: nat): (r: nat)
    ensures r < Pow2(k)
  {
    if k == 0 then 0 else 2 * NotBits(x / 2, k - 1) + (1 - x % 2)
  }

  function AndBits(x: nat, y: nat, k: nat): (r: nat)
    ensures r < Pow2(k)
  {
    if k == 0 then 0 else 2 * AndBits(x / 2, y / 2, k - 1) + (x % 2) * (y % 2)
  }

  function OrBits(x: nat, y: nat, k: nat): (r: nat)
    ensures r < Pow2(k)
  {
    if k == 0 then 0
    else 2 * OrBits(x / 2, y / 2, k - 1) + (if x % 2 == 1 || y % 2 == 1 then 1 else 0)
  }

  function XorBits(x: nat, y: nat, k: nat): (r: nat)
    ensures r < Pow2(k)
  {
    if k == 0 then 0
    else 2 * XorBits(x / 2, y / 2, k - 1) + (if x % 2 != y % 2 then 1 else 0)
  }

  /** Flipping every bit of a k-bit word subtracts it from 2^k - 1. */
  lemma {:induction false} NotBitsValue(x: nat, k: nat)
    requires x < Pow2(k)
    ensures NotBits(x, k) == Pow2(k) - 1 - x
  {
    if k > 0 {
      NotBitsValue(x / 2, k - 1);
    }
  }

  lemma {:induction false} AndBitsSelf(x: nat, k: nat)
    requires x < Pow2(k)
    ensures AndBits(x, x, k) == x
  {
    if k > 0 {
      AndBitsSelf(x / 2, k - 1);
    }
  }

  lemma {:induction false} AndBitsComm(x: nat, y: nat, k: nat)
    ensures AndBits(x, y, k) == AndBits(y, x, k)
  {
    if k > 0 {
      AndBitsComm(x / 2, y / 2, k - 1);
    }
  }

  lemma {:induction false} AndBitsZero(x: nat, k: nat)
    ensures AndBits(x, 0, k) == 0
  {
    if k > 0 {
      AndBitsZero(x / 2, k - 1);
    }
  }

  lemma {:induction false} OrBitsSelf(x: nat, k: nat)
    requires x < Pow2(k)
    ensures OrBits(x, x, k) == x
  {
    if k > 0 {
      OrBitsSelf(x / 2, k - 1);
    }
  }

  lemma {:induction false} OrBitsComm(x: nat, y: nat, k: nat)
    ensures OrBits(x, y, k) == OrBits(y, x, k)
  {
    if k > 0 {
      OrBitsComm(x / 2, y / 2, k - 1);
    }
  }

  lemma {:induction false} OrBitsZero(x: nat, k: nat)
    requires x < Pow2(k)
    ensures OrBits(x, 0, k) == x
  {
    if k > 0 {
      OrBitsZero(x / 2, k - 1);
    }
  }

  lemma {:induction false} XorBitsSelf(x: nat, k: nat)
    ensures XorBits(x, x, k) == 0
  {
    if k > 0 {
      XorBitsSelf(x / 2, k - 1);
    }
  }

  lemma {:induction false} XorBitsComm(x: nat, y: nat, k: nat)
    ensures XorBits(x, y, k) == XorBits(y, x, k)
  {
    if k > 0 {
      XorBitsComm(x / 2, y / 2, k - 1);
    }
  }

  /** XOR-ing the same word twice gives back the original word. */
  lemma {:induction false} XorBitsCancel(x: nat, y: nat, k: nat)
    requires x < Pow2(k)
    ensures XorBits(XorBits(x, y, k), y, k) == x
  {
    if k > 0 {
      var r := XorBits(x, y, k);
      assert r / 2 == XorBits(x / 2, y / 2, k - 1);
      XorBitsCancel(x / 2, y / 2, k - 1);
    }
  }

  // Limb-wide versions (64 bits)

  /** `~val` on one limb. */
  function Not(x: Limb): (r: Limb)
    ensures r == MAX_LIMB - x
  {
    LimbWidth();
    NotBitsValue(x, LIMB_BITS);
    NotBits(x, LIMB_BITS)
  }

  /** `*tit &= *oit` on one limb. */
  function And(x: Limb, y: Limb): Limb
  {
    LimbWidth();
    AndBits(x, y, LIMB_BITS)
  }

  /** `*tit |= *oit` on one limb. */
  function Or(x: Limb, y: Limb): Limb
  {
    LimbWidth();
    OrBits(x, y, LIMB_BITS)
  }

  /** `*tit ^= *oit` on one limb. */
  function Xor(x: Limb, y: Limb): Limb
  {
    LimbWidth();
    XorBits(x, y, LIMB_BITS)
  }

  /** The limb-wide laws the bitwise operators rely on. */
  lemma {:induction false} LimbLaws(x: Limb, y: Limb)
    ensures Not(Not(x)) == x
    ensures And(x, x) == x && And(x, y) == And(y, x) && And(x, 0) == 0
    ensures Or(x, x) == x && Or(x, y) == Or(y, x) && Or(x, 0) == x
    ensures Xor(x, x) == 0 && Xor(x, y) == Xor(y, x) && Xor(Xor(x, y), y) == x
  {
    LimbWidth();
    AndBitsSelf(x, LIMB_BITS);
    AndBitsComm(x, y, LIMB_BITS);
    AndBitsZero(x, LIMB_BITS);
    OrBitsSelf(x, LIMB_BITS);
    OrBitsComm(x, y, LIMB_BITS);
    OrBitsZero(x, LIMB_BITS);
    XorBitsSelf(x, LIMB_BITS);
    XorBitsComm(x, y, LIMB_BITS);
    XorBitsCancel(x, y, LIMB_BITS);
  }

  // ---------------------------------------------------------------------------
  // Queries on a limb sequence

  /** bNegative: bit 63 of the last limb. */
  predicate IsNegative(s: seq<Limb>)
    requires |s| > 0
    ensures IsNegative(s) <==> TestBit(s[|s| - 1], LIMB_BITS - 1)
  {
    SignIsTopBit(s[|s| - 1]);
    s[|s| - 1] >= SIGN_BIT
  }

  /** `0 - negative` computed in unsigned long long: all ones or all zeros. */
  function FillWord(negative: bool): (w: Limb)
    ensures negative ==> w == MAX_LIMB && w >= SIGN_BIT
    ensures !negative ==> w == 0
  {
    (0 - (if negative then 1 else 0)) % BASE
  }

  /** numBits: the limb count times CHAR_BIT (8), not times the limb width. */
  function NumBits(s: seq<Limb>): nat
  {
    |s| * CHAR_BIT
  }

  /** operator[]: bit i % 8 of limb i / 8, and false past the last limb. */
  predicate BitAt(s: seq<Limb>, i: nat)
    ensures BitAt(s, i) ==> i < NumBits(s)
  {
    var byteI := i / CHAR_BIT;
    var bitI := i % CHAR_BIT;
    if byteI < |s| then TestBit(s[byteI], bitI) else false
  }

  /** Every index at or past numBits reads as a zero bit, even for a negative
      number, and numBits counts only 8 bits per 64-bit limb. */
  lemma {:induction false} BitAtPastNumBits(s: seq<Limb>, i: nat)
    requires |s| > 0 && i >= NumBits(s)
    ensures !BitAt(s, i)
    ensures NumBits(s) < LIMB_BITS * |s|
  {
  }

  /** The single limb 0 has no bit set at any index operator[] can be asked. */
  lemma {:induction false} ZeroHasNoBits(c: seq<Limb>)
    requires c == [0]
    ensures forall i: nat :: !BitAt(c, i)
  {
    forall i: nat ensures !BitAt(c, i) {
      if i / CHAR_BIT < |c| {
        TestBitZero(i % CHAR_BIT);
      }
    }
  }

  /** std::vector::resize: truncate to n, or grow to n with copies of fill. */
  function Resize(s: seq<Limb>, n: nat, fill: Limb): (r: seq<Limb>)
    ensures |r| == n
    ensures forall i :: 0 <= i < n ==> r[i] == if i < |s| then s[i] else fill
  {
    if n <= |s| then s[..n] else s + seq(n - |s|, _ => fill)
  }

  // ---------------------------------------------------------------------------
  // What a limb sequence means

  /** 2^(64 k): the weight of limb k. */
  function Weight(k: nat): (w: nat)
    ensures w > 0
  {
    if k == 0 then 1 else BASE * Weight(k - 1)
  }

  /** The limbs read as an unsigned number. */
  ghost function Unsigned(s: seq<Limb>): nat
  {
    if |s| == 0 then 0 else Unsigned(s[..|s| - 1]) + s[|s| - 1] * Weight(|s| - 1)
  }

  /** The limbs read as a two's-complement number of 64 * |s| bits. */
  ghost function ToInt(s: seq<Limb>): int
    requires |s| > 0
  {
    Unsigned(s) - (if IsNegative(s) then Weight(|s|) else 0)
  }

  /** Half the range of |s| limbs: 2^(64 |s| - 1). */
  ghost function Half(s: seq<Limb>): int
    requires |s| > 0
  {
    SIGN_BIT * Weight(|s| - 1)
  }

  lemma {:induction false} UnsignedSnoc(s: seq<Limb>, x: Limb)
    ensures Unsigned(s + [x]) == Unsigned(s) + x * Weight(|s|)
  {
    assert (s + [x])[..|s|] == s;
  }

  /** The value of a prefix of k limbs: the prefix of k - 1 plus limb k - 1. */
  lemma {:induction false} UnsignedPrefix(s: seq<Limb>, k: nat)
    requires 0 < k <= |s|
    ensures Unsigned(s[..k]) == Unsigned(s[..k - 1]) + s[k - 1] * Weight(k - 1)
  {
    assert s[..k][..k - 1] == s[..k - 1];
  }

  /** Scaling both sides of a <= b by the same weight. */
  lemma {:induction false} MulMono(a: nat, b: nat, w: nat)
    requires a <= b
    ensures a * w <= b * w
  {
  }

  lemma {:induction false} UnsignedBound(s: seq<Limb>)
    ensures Unsigned(s) < Weight(|s|)
  {
    if |s| > 0 {
      var n := |s| - 1;
      UnsignedBound(s[..n]);
      MulMono(s[n], MAX_LIMB, Weight(n));
    }
  }

  /** The sign bit of the last limb is set exactly when the unsigned value
      reaches the upper half of the range. */
  lemma {:induction false} SignByValue(s: seq<Limb>)
    requires |s| > 0
    ensures Weight(|s|) == 2 * Half(s)
    ensures IsNegative(s) <==> Unsigned(s) >= Half(s)
  {
    var n := |s| - 1;
    UnsignedBound(s[..n]);
    if s[n] >= SIGN_BIT {
      MulMono(SIGN_BIT, s[n], Weight(n));
    } else {
      MulMono(s[n], SIGN_BIT - 1, Weight(n));
    }
  }

  /** A two's-complement value of |s| limbs lies in [-2^(64|s|-1), 2^(64|s|-1)),
      and it is negative exactly when bNegative says so. */
  lemma {:induction false} ToIntRange(s: seq<Limb>)
    requires |s| > 0
    ensures -Half(s) <= ToInt(s) < Half(s)
    ensures IsNegative(s) <==> ToInt(s) < 0
  {
    SignByValue(s);
    UnsignedBound(s);
  }

  /** The two's-complement value is the unsigned value, less 2^(64|s|) when it
      reaches the upper half. */
  lemma {:induction false} ValueByHalf(s: seq<Limb>)
    requires |s| > 0
    ensures Weight(|s|) == 2 * Half(s) && 0 <= Unsigned(s) < Weight(|s|)
    ensures ToInt(s) == Unsigned(s) - (if Unsigned(s) >= Half(s) then Weight(|s|) else 0)
    ensures -Half(s) <= ToInt(s) < Half(s)
  {
    SignByValue(s);
    UnsignedBound(s);
  }

  /** Appending the fill word (sign extension by one limb) keeps the value and the sign. */
  lemma {:induction false} SignExtendOne(s: seq<Limb>)
    requires |s| > 0
    ensures IsNegative(s + [FillWord(IsNegative(s))]) == IsNegative(s)
    ensures ToInt(s + [FillWord(IsNegative(s))]) == ToInt(s)
  {
    var f := FillWord(IsNegative(s));
    UnsignedSnoc(s, f);
    assert Weight(|s| + 1) == BASE * Weight(|s|);
  }

  /** Growing a sequence with its own fill word keeps its value and its sign. */
  lemma {:induction false} ResizeValue(s: seq<Limb>, n: nat)
    requires 0 < |s| <= n
    ensures IsNegative(Resize(s, n, FillWord(IsNegative(s)))) == IsNegative(s)
    ensures ToInt(Resize(s, n, FillWord(IsNegative(s)))) == ToInt(s)
  {
    var f := FillWord(IsNegative(s));
    if n == |s| {
      assert Resize(s, n, f) == s;
    } else {
      ResizeValue(s, n - 1);
      var p := Resize(s, n - 1, f);
      assert Resize(s, n, f) == p + [f];
      SignExtendOne(p);
    }
  }
}
