# BigInteger: a Dafny model

A model of the C++ `BigInteger` class (`include/BigInteger.hpp`,
`src/BigInteger.cpp`). The class stores an arbitrary-precision
two's-complement integer as a `std::vector<unsigned long long>` of limbs,
least significant first. The sign is the top bit of the last limb. The
repository defines these operations, and the model covers all of them:

- construction and assignment from an integral value;
- `+=`, `*=`, `&=`, `|=` and `^=`;
- unary `~` and unary `-`;
- `==` and `<=>`.

The model proves what each of them does to the limb sequence and what that
means for the number.

## Layout

- `limbs.dfy` (module `Limbs`):
  - A limb is an `int` in `[0, 2^64)`.
  - `Unsigned`, `ToInt` and `Half` give the meaning of a limb sequence as an
    unsigned number, as a two's-complement number, and as the size of its
    signed range.
  - `Not`, `And`, `Or` and `Xor` act on one limb, bit by bit.
  - `IsNegative` models `bNegative()`, `FillWord` the fill byte `0 - negative`,
    `Resize` `std::vector::resize`, and `NumBits` and `BitAt` `numBits()` and
    `operator[]`.
- `bitwise.dfy` (module `Bitwise`): `~`, `&=`, `|=` and `^=` as functions on
  limb sequences, with their algebraic laws.
- `addition.dfy` (module `Addition`): `+=` as a function on limb sequences,
  and the exact value of its result.
- `multiplication.dfy` (module `Multiplication`): unary `-` and the
  shift-and-add loop of `*=`, and the value of its result.
- `big_integer.dfy` (module `BigIntegers`):
  - The class `BigInteger`, with its one field `data: seq<Limb>`. Its
    constructors, assignments and compound operators update `data` in place,
    and each is proved to leave `data` equal to the function above applied to
    the old limbs.
  - `Complement` and `Negate`: the free `~` and unary `-`, which take their
    argument by value.
- `comparison.dfy` (module `Comparison`): the loops of `==` and `<=>`, once as
  written and once as evidently intended.

## Behaviour the model keeps as the code has it

- **The overflow test after `+=`.** It compares `(thisNegative or
  otherNegative)` with the sign of the result (`src/BigInteger.cpp:38`).
  - When both operands have the same sign it detects overflow correctly and
    appends the right fill word.
  - Operands of mixed signs never overflow. When only other is negative, the
    test may append a 0 limb, which keeps the value.
  - When only this is negative and the sum is non-negative, it appends an
    all-ones limb that turns the sum negative.
  - `Addition.AddValue` states that this last case is the only one where the
    result is not the sum, and gives the result there: sum − 2^(64n).
  - `Addition.AddIntended` is the same-sign test. `Addition.AddIntendedValue`
    proves it always exact, and `Addition.MinusOnePlusOne` shows the two tests
    disagreeing on `-1 + 1`.
- **`numBits()` and `operator[]` count `CHAR_BIT` (8) bits per limb.**
  - `*=` therefore reads only the low byte of each limb of its multiplier.
  - `Multiplication.MulLowBytes` states the product that results.
  - `Multiplication.MulSmall` and `Multiplication.MulSmallNegative` show two
    families of multipliers for which `*=` gives the true product. For the
    negative one, that holds only when this ≠ 0.
- **`-0`.** Negating zero goes through the overflow test. It yields `-2^(64n)`,
  one limb longer (`Multiplication.NegValue`,
  `Multiplication.NegZeroLength`).
- **`&=` keeps the shorter length, and `|=` and `^=` copy other's surplus limbs
  verbatim.** The surplus is not sign-extended against this
  (`Bitwise.OrZeroExtends`).
- **`x *= x`.** `check` is a reference (`src/BigInteger.cpp:50`). For a
  non-negative x it is x itself, which `setZero` resets to `[0]` before the
  loop reads a bit of it. Nothing is ever added, so `x *= x` yields 0 for
  every non-negative x (`Multiplication.MulSelfNonNegative`;
  `Multiplication.MulSelfCounterexample` shows 3 *= 3 giving 0). For a
  negative x both negations are copies, and the result is the ordinary
  product.
- **`==` and `<=>`.** They walk from the least significant limb and stop at the
  shorter operand, so neither is numeric equality or order. Even walked
  from the first limb, `<=>` is not a weak ordering, because equivalence is
  not transitive across lengths (`Comparison.EquivalentNotTransitive`).

## Choices where the code does not determine the behaviour

- **The carry of `+=`** is computed in `operationType`, a type declared
  nowhere, and shifted right by `CHAR_BIT`. The model takes a wide unsigned
  sum and carries `sum / 2^64` (see Findings).
- **The guard of `|=` and `^=`** compares an iterator into other's vector with
  `this->data.cend()`, an iterator into a different vector. The model uses the
  evident intent: the tail of other is appended when other is the longer
  operand.
- **`accumulator <<= 1` in `*=`** is declared but not defined. It is modelled
  as doubling, `accumulator += accumulator`.
- **Binary `+`** in `~bgIntgr + 1` is declared but not defined. It is modelled
  as copy-then-`+=`.
- **Aliasing.** Every compound operator may be called with `other` being
  `this`.
  - In `+=`, `&=`, `|=` and `^=`, the Dafny loops read limb `i` of other from
    the sequence as it was on entry, and store the new sequence at the end.
    The C++ loop reads limb `i` of other before it writes limb `i` of this,
    and never reads limb `i` again, so the two agree.
  - `*=` reads its multiplier through `check` while it rewrites this object.
    The model runs a separate loop, `ShiftAddLoopSelf`, for the case where
    `check` is this object.
- **`assert` calls** in the source become preconditions (`|data| > 0`).

## Model

| member | source | states |
|---|---|---|
| Limbs.LimbWidth | include/BigInteger.hpp:21-23 | a limb is sizeof(unsigned long long) × CHAR_BIT = 64 bits: 2^64 values, sign bit 2^63, all-ones word 2^64 − 1; a byte holds 2^8 = 256 values |
| Limbs.SignIsTopBit | src/BigInteger.cpp:154-157 | the mask `1ull << 63` in bNegative selects the top bit, which is set exactly when the limb is at least 2^63 |
| Limbs.ToIntRange | src/BigInteger.cpp:154-157 | n limbs read as two's complement lie in [−2^(64n−1), 2^(64n−1)), and bNegative holds exactly when that number is negative |
| Limbs.FillWord | src/BigInteger.cpp:16-17 | `0 - negative` as unsigned long long is all ones for a negative operand and 0 otherwise, and the all-ones word has its sign bit set |
| Limbs.IsNegative | src/BigInteger.cpp:154-157 | bNegative: true exactly when bit 63 of the last limb is set |
| Limbs.BitAt | src/BigInteger.cpp:159-166 | operator[]: only an index below numBits() can read as set (BitAtLimb says which bit it reads) |
| Limbs.BitAtPastNumBits | src/BigInteger.cpp:150-166 | operator[] answers false at every index from numBits() on, and numBits() (8 per limb) is below the 64 bits a limb holds |
| Limbs.Not | src/BigInteger.cpp:62 | `~val` on one limb is 2^64 − 1 − val |
| Limbs.LimbLaws | src/BigInteger.cpp:61-100 | the limb operators behind ~, &=, \|=, ^=: ~~x = x; & and \| idempotent and commutative; x & 0 = 0 and x \| 0 = x; x ^ x = 0, ^ commutative, (x ^ y) ^ y = x |
| Limbs.Resize | src/BigInteger.cpp:19-21 | vector::resize: exactly n limbs; limbs below the old length are kept, the new ones hold the fill value |
| Limbs.ResizeValue | src/BigInteger.cpp:19-21 | growing this with its own fill word keeps its two's-complement value and its sign |
| Limbs.SignExtendOne | src/BigInteger.cpp:37-41 | appending the fill word of a number's own sign keeps its value and sign |
| Bitwise.NotLimbs | src/BigInteger.cpp:61-64 | operator~ on the limbs: same length, and each limb plus the original limb is 2^64 − 1 |
| Bitwise.Zip | src/BigInteger.cpp:66-100 | the shared loop of &=, \|=, ^=: min(\|this\|, \|other\|) limbs, each the two limbs combined |
| Bitwise.AndLimbs | src/BigInteger.cpp:66-76 | &=: min(\|this\|, \|other\|) limbs, each the AND of the two limbs; surplus limbs on either side are dropped |
| Bitwise.OrLimbs | src/BigInteger.cpp:78-88 | \|=: max(\|this\|, \|other\|) limbs; shared positions ORed, other's surplus copied |
| Bitwise.XorLimbs | src/BigInteger.cpp:90-100 | ^=: max(\|this\|, \|other\|) limbs; shared positions XORed, other's surplus copied |
| Bitwise.NotValue | src/BigInteger.cpp:61-64 | ~x has as many limbs as x, the opposite sign, and the value −x − 1 |
| Bitwise.NotInvolution | src/BigInteger.cpp:61-64 | applying ~ twice gives back the same limbs |
| Bitwise.ZipAppend | src/BigInteger.cpp:78-100 | \|= and ^= leave max(\|this\|, \|other\|) limbs; shared positions combine both limbs, this's surplus is unchanged, other's surplus is copied |
| Bitwise.AndLaws | src/BigInteger.cpp:66-76 | &= leaves min(\|this\|, \|other\|) limbs; x &= x changes nothing; the operands commute; AND with the single limb 0 gives the single limb 0 |
| Bitwise.OrLaws | src/BigInteger.cpp:78-88 | \|= is idempotent and commutative |
| Bitwise.XorLaws | src/BigInteger.cpp:90-100 | x ^= x gives \|x\| zero limbs, the number 0; ^= is commutative |
| Bitwise.XorCancel | src/BigInteger.cpp:90-100 | ^= with an operand no longer than this, applied twice, restores this |
| Bitwise.OrZeroExtends | src/BigInteger.cpp:81-86 | other's surplus limbs are copied, not sign-extended: a negative one-limb number \| a positive two-limb one with low limb 0 is positive |
| Addition.LimbAtSignExtends | src/BigInteger.cpp:17-30 | the limbs rv reads over n ≥ \|other\| steps are other resized to n with its own fill word, and they have other's value: other is read sign-extended |
| Addition.Carry | src/BigInteger.cpp:23-33 | carryOver on entry to step i; carried by 2^64 it is never more than 1 |
| Addition.SumLimbs | src/BigInteger.cpp:26-34 | the limbs the loop leaves: one per limb of padded this (their value is stated by SumPrefixValue) |
| Addition.Padded | src/BigInteger.cpp:19-21 | this after the resize: max(\|this\|, \|other\|) limbs (its value is kept, PaddedValue) |
| Addition.LoopResult | src/BigInteger.cpp:16-34 | this after the loop, before the overflow test: max(\|this\|, \|other\|) limbs (their value is stated by LoopResultValue) |
| Addition.Add | src/BigInteger.cpp:10-44 | operator+= on limb sequences: n = max(\|this\|, \|other\|) limbs or one more (AddWith says which limbs, AddValue their value) |
| Addition.AddIntended | src/BigInteger.cpp:37-41 | += with the same-sign overflow test: the same n loop limbs, then at most one more (its value is stated by AddIntendedValue) |
| Addition.AddWith | src/BigInteger.cpp:10-44 | += leaves n = max(\|this\|, \|other\|) limbs from the loop, plus one more exactly when (thisNegative or otherNegative) differs from the loop result's sign, and that limb is this's original fill word |
| Addition.SumPrefixValue | src/BigInteger.cpp:23-34 | after k steps, the limbs written plus carry × 2^(64k) equal the sum of the first k padded limbs of both operands, and the carry is 0 or 1 |
| Addition.LoopResultUnsigned | src/BigInteger.cpp:23-34 | the loop's limbs read unsigned are the unsigned sum of the padded operands, less 2^(64n) when a carry leaves the top limb |
| Addition.PaddedValue | src/BigInteger.cpp:19-21 | padding this to other's length with its fill word keeps its value and sign |
| Addition.LoopResultValue | src/BigInteger.cpp:16-34 | both operands lie in the n-limb signed range, and the loop's limbs read as their exact sum wrapped into that range |
| Addition.AppendFillValue | src/BigInteger.cpp:37-41 | after push_back of a fill word, the value is the loop result read unsigned, less 2^(64n) when the pushed word is all ones |
| Addition.AddValue | src/BigInteger.cpp:10-44 | += yields this + other, except when this is negative, other is not and the sum is ≥ 0; then it yields sum − 2^(64n) |
| Addition.AddIntendedValue | src/BigInteger.cpp:37-41 | with the same-sign overflow test, += always yields this + other exactly |
| Addition.AddSelfValue | src/BigInteger.cpp:10-44 | x += x yields 2x |
| Addition.MinusOnePlusOne | src/BigInteger.cpp:37-41 | −1 += 1 yields limbs [0, 2^64 − 1], the number −2^64; the same-sign test yields 0 |
| Addition.CharBitCarryCounterexample | src/BigInteger.cpp:33 | with the carry shifted by 8 bits, [0xFF, 0] += [1, 0] yields 2^64 + 256 instead of 256; with the 64-bit carry it yields 256 |
| Multiplication.OneValue | src/BigInteger.cpp:103 | the BigInteger built from the int 1 is the one limb 1: value 1, not negative |
| Multiplication.Neg | src/BigInteger.cpp:102-104 | unary −, `~x + 1`: as many limbs as x, or one more (its value is stated by NegValue) |
| Multiplication.Multiplicand | src/BigInteger.cpp:48 | the accumulator's start: this, or −this when other is negative (never empty) |
| Multiplication.Multiplier | src/BigInteger.cpp:49-50 | `check`: never negative, and its value is \|other\| |
| Multiplication.MulLoop | src/BigInteger.cpp:52-57 | the loop from iteration i on (its value is stated by MulLoopValue) |
| Multiplication.Mul | src/BigInteger.cpp:46-59 | operator*= for a multiplier that is a different object: reset to [0], then the loop (its value is stated by MulLowBytes) |
| Multiplication.MulSelf | src/BigInteger.cpp:46-59 | x *= x: for non-negative x the loop reads the reset this as `check`; for negative x the ordinary product |
| Multiplication.MulSelfNonNegative | src/BigInteger.cpp:50-51 | x *= x yields the single limb 0 for every non-negative x |
| Multiplication.MulSelfCounterexample | src/BigInteger.cpp:50-51 | 3 *= 3 yields 0, where 3 times a separate copy of 3 yields 9 |
| Multiplication.NegValue | src/BigInteger.cpp:102-104 | −x has value −x for x ≠ 0; −0 has value −2^(64n) |
| Multiplication.NegNegValue | src/BigInteger.cpp:102-104 | −(−x) = x for x ≠ 0; −(−0) has value 2^(64n) |
| Multiplication.NegZeroLength | src/BigInteger.cpp:102-104 | −0 has one limb more than 0 |
| Multiplication.MulLoopValue | src/BigInteger.cpp:52-57 | if acc = x·2^i and res = x·(bits 0..i−1 of check) on entry to step i, the loop ends with res = x·(the number formed by check's numBits() bits) |
| Multiplication.DoubleStep | src/BigInteger.cpp:56 | the doubling of accumulator takes x·p to x·2p |
| Multiplication.AddStep | src/BigInteger.cpp:53-55 | `*this += accumulator` takes x·b to x·(b + p) when accumulator is x·p, p > 0, b ≥ 0 |
| Multiplication.MulValue | src/BigInteger.cpp:46-59 | *= yields the multiplicand (this, or −this for a negative other) times the number formed by check's numBits() bits |
| Multiplication.BitAtLimb | src/BigInteger.cpp:159-166 | operator[](8j + t), t < 8, is bit t of limb j, and false past the last limb |
| Multiplication.BitsValueLowBytes | src/BigInteger.cpp:150-166 | the first 8j bits operator[] reads form the low bytes of limbs 0..j−1, packed 8 bits apart |
| Multiplication.MulLowBytes | src/BigInteger.cpp:46-59 | *= yields the multiplicand times the low bytes of check's limbs, packed 8 bits apart |
| Multiplication.MulSmall | src/BigInteger.cpp:46-59 | for a one-limb multiplier 0 ≤ v < 256, *= yields this × v |
| Multiplication.MulNegativeMultiplier | src/BigInteger.cpp:48-50 | for a negative other, *= yields (−this) × the low bytes of −other |
| Multiplication.NegSmall | src/BigInteger.cpp:102-104 | negating the one-limb −v (0 < v < 256) gives the one limb v |
| Multiplication.MulSmallNegative | src/BigInteger.cpp:46-59 | for a one-limb multiplier −256 < v < 0, *= yields this × v when this ≠ 0, and 2^(64n) × v when this = 0 |
| Multiplication.MulByZero | src/BigInteger.cpp:46-59 | *= 0 yields the one limb 0 |
| Multiplication.MulLoopNoBits | src/BigInteger.cpp:52-57 | when check has no set bit from i on, the rest of the loop leaves res unchanged |
| BigIntegers.SignedToLimb | include/BigInteger.hpp:86-88 | the limb stored for a signed v in [−2^63, 2^63) reads back as v, and is negative exactly when v is |
| BigIntegers.UnsignedCopyValue | include/BigInteger.hpp:90-92 | {v, 0} is never negative and reads back as v, where {v} alone would read as v − 2^64 for v ≥ 2^63 |
| BigIntegers.AddLoop | src/BigInteger.cpp:23-34 | the loop leaves the limbs SumLimbs defines, whose value LoopResultValue states |
| BigIntegers.BigInteger.constructor | src/BigInteger.cpp:6-8 | a default-constructed BigInteger holds the one limb 0 |
| BigIntegers.BigInteger.FromSigned | include/BigInteger.hpp:77-79 | built from a signed value, it holds the one limb that reads back as that value |
| BigIntegers.BigInteger.FromUnsigned | include/BigInteger.hpp:77-79 | built from an unsigned value v, it holds [v, 0] |
| BigIntegers.BigInteger.Copy | src/BigInteger.cpp:48 | the copy holds the same limbs as its source |
| BigIntegers.BigInteger.SetZero | src/BigInteger.cpp:168-171 | whatever the old limbs, afterwards the one limb 0 |
| BigIntegers.BigInteger.CopySigned | include/BigInteger.hpp:86-88 | replaces all limbs with the one limb for v |
| BigIntegers.BigInteger.CopyUnsigned | include/BigInteger.hpp:90-92 | replaces all limbs with [v, 0] |
| BigIntegers.BigInteger.AssignSigned | include/BigInteger.hpp:81-84 | operator= of a signed value replaces the whole sequence, whatever its old length |
| BigIntegers.BigInteger.AssignUnsigned | include/BigInteger.hpp:81-84 | operator= of an unsigned value replaces the whole sequence with [v, 0] |
| BigIntegers.BigInteger.AddAssign | src/BigInteger.cpp:10-44 | data becomes Add of the old operands, also when other is this; AddValue gives its value |
| BigIntegers.BigInteger.MulAssign | src/BigInteger.cpp:46-59 | data becomes Mul of the old operands when other is a different object (MulLowBytes gives its value), and MulSelf of the old limbs for x *= x |
| BigIntegers.BigInteger.ShiftAddLoop | src/BigInteger.cpp:52-57 | the loop leaves this at MulLoop of the entry accumulator, result and check; MulLoopValue gives its value |
| BigIntegers.BigInteger.ShiftAddLoopSelf | src/BigInteger.cpp:52-57 | the loop when `check` is this object, just reset: this stays [0], which is MulLoop of the accumulator, [0] and [0] |
| BigIntegers.BigInteger.AndAssign | src/BigInteger.cpp:66-76 | data becomes AndLimbs of the old operands, also when other is this |
| BigIntegers.BigInteger.OrAssign | src/BigInteger.cpp:78-88 | data becomes OrLimbs of the old operands |
| BigIntegers.BigInteger.XorAssign | src/BigInteger.cpp:90-100 | data becomes XorLimbs of the old operands |
| BigIntegers.BigInteger.ZipAppendAssign | src/BigInteger.cpp:78-100 | the shared loop and tail copy of \|= and ^= leave ZipAppend of the old operands |
| BigIntegers.Complement | src/BigInteger.cpp:61-64 | returns a new BigInteger holding ~ of every limb; NotValue gives its value |
| BigIntegers.Negate | src/BigInteger.cpp:102-104 | returns a new BigInteger holding ~x + 1; NegValue gives its value |
| Comparison.EqualsFrom | src/BigInteger.cpp:106-117 | the loop of == answers true exactly when every position both walks reach holds equal limbs |
| Comparison.CompareFrom | src/BigInteger.cpp:119-134 | the loop of <=> answers the order of the first differing limb pair, from the least significant, or equivalent |
| Comparison.Equals | src/BigInteger.cpp:106-117 | as written (rit starts at the end), == answers true for every two numbers |
| Comparison.Compare | src/BigInteger.cpp:119-134 | as written, <=> answers equivalent for every two numbers |
| Comparison.EqualsFromBegin | src/BigInteger.cpp:106-117 | with rit from the first limb, == answers true exactly when all shared limb positions agree |
| Comparison.CompareFromBegin | src/BigInteger.cpp:119-134 | with rit from the first limb, <=> answers CompareLimbs of the two limb sequences |
| Comparison.CommonLimbsEqual | src/BigInteger.cpp:106-117 | what == from the first limb checks: all shared positions agree; for equal lengths, the limbs are equal |
| Comparison.CompareLimbs | src/BigInteger.cpp:119-134 | <=> from the first limb, least significant limb first; it answers equivalent exactly when == answers true |
| Comparison.EquivalentNotTransitive | src/BigInteger.cpp:119-134 | [1, 5] and [1, 6] are each equivalent to [1], yet [1, 5] is less than [1, 6]: not a weak ordering |
| Comparison.EqualityLaws | src/BigInteger.cpp:106-134 | == is reflexive and symmetric, and x <=> x is equivalent |
| Comparison.CompareSwap | src/BigInteger.cpp:119-134 | swapping the operands swaps less and greater and keeps equivalent |
| Comparison.LowestDifferenceDecides | src/BigInteger.cpp:121-131 | the lowest limb position where the operands differ decides the order |
| Comparison.SameLengthEquality | src/BigInteger.cpp:106-117 | for operands of equal length, == holds exactly when the limbs are equal, and exactly when the numbers are equal |
| Comparison.SurplusLimbsIgnored | src/BigInteger.cpp:107-108 | limbs past the shorter operand are never read: 0 and 2^64 compare equal |
| Comparison.NotNumericOrder | src/BigInteger.cpp:121-131 | the order is not numeric: 1 compares greater than 2^64 |

## Left out

- `operator<<` (`src/BigInteger.cpp:136-148`) writes to a stream, which is I/O. It also prints only the low byte of each limb.
- Members that are declared but defined nowhere are not part of this model:
  - `negate`, `flip`, `zero`, `getFillByte` and `binaryOperationCommon` (`include/BigInteger.hpp:16-18`, `29`, `31-33`);
  - `++`, `--`, `-=`, `/=`, `%=`, `>>=`, `<<=` and `!=` (`include/BigInteger.hpp:40-48`, `57`);
  - the free operators other than `~` and unary `-` (`include/BigInteger.hpp:60-75`).
  The two that `*=` and `-` call are assumed (see above): `<<= 1` as doubling and binary `+` as copy-then-`+=`.
- The C++20 concept overloading of `copy` is replaced by explicit signed and unsigned entry points.
  - `FromSigned`, `CopySigned` and `AssignSigned` take a value in the signed 64-bit range.
  - `FromUnsigned`, `CopyUnsigned` and `AssignUnsigned` take a limb.
  - The narrowing conversion in `data = {intgr}` is taken as reduction modulo 2^64.
  - `bool` and the character types are treated like the other integral types.
- In-place updates in `+=`, `&=`, `|=` and `^=`:
  - The loops update a local copy of the limb sequence and store it in `data` at the end.
  - Writes that alias other's vector while the loop is still reading it are not modelled limb by limb; the argument above shows they cannot change the result.
- `std::size_t` arithmetic in `numBits()` (`size * CHAR_BIT`) is unbounded here. Vectors long enough to overflow it are not modelled.
- Memory allocation failure, iterator invalidation and concurrency are not modelled.

## Findings

| source | as written | input that shows it | evidently intended | confidence | as-written member | corrected member |
|---|---|---|---|---|---|---|
| src/BigInteger.cpp:33 | the carry is `(lv + rv + carryOver) >> CHAR_BIT`, the sum shifted right by 8 bits | this = [0xFF, 0], other = [1, 0]: limb 0 becomes 0x100 and a carry of 1 reaches limb 1, giving 2^64 + 256 instead of 256 | carry the sum shifted right by the 64 bits of a limb | not executed | Addition.CharBitCarryCounterexample | Addition.LoopResultValue |
| src/BigInteger.cpp:107 | `rit` starts at `rightBgIntgr.data.cend()`, so the loop body never runs and == returns true | this = [1], other = [2]: == answers true | start `rit` at `cbegin()`, like `lit` | not executed | Comparison.Equals | Comparison.EqualsFromBegin |
| src/BigInteger.cpp:121 | `rit` starts at `rightBgIntgr.data.cend()`, so <=> returns equivalent | this = [1], other = [2]: <=> answers equivalent | start `rit` at `cbegin()`, like `lit` | not executed | Comparison.Compare | Comparison.CompareFromBegin |
