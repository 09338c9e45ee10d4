/*
 * TUMaths.hpp: minT/maxT, AlignTo, the De Bruijn table branch of
 * CountTrailingZeroC/CountLeadingZeroC, nextPowerOf2 and log2i.
 *
 * Machine words are bit-vectors (bv8 .. bv64), so wrap-around and shifts
 * behave as in C++; AlignTo works on 64-bit values held as naturals.
 */
module TUMaths {

  import opened Wrappers

  // ---------------------------------------------------------------- minT / maxT

  function MinT(a: int, b: int): (r: int)
    ensures r <= a && r <= b
    ensures r == a || r == b
  {
    if a < b then a else b
  }

  function MinT3(a: int, b: int, c: int): (r: int)
    ensures r <= a && r <= b && r <= c
    ensures r == a || r == b || r == c
  {
    MinT(MinT(a, b), c)
  }

  function MinT4(a: int, b: int, c: int, d: int): (r: int)
    ensures r <= a && r <= b && r <= c && r <= d
    ensures r == a || r == b || r == c || r == d
  {
    MinT(MinT(a, b), MinT(c, d))
  }

  function MaxT(a: int, b: int): (r: int)
    ensures r >= a && r >= b
    ensures r == a || r == b
  {
    if a > b then a else b
  }

  function MaxT3(a: int, b: int, c: int): (r: int)
    ensures r >= a && r >= b && r >= c
    ensures r == a || r == b || r == c
  {
    MaxT(MaxT(a, b), c)
  }

  function MaxT4(a: int, b: int, c: int, d: int): (r: int)
    ensures r >= a && r >= b && r >= c && r >= d
    ensures r == a || r == b || r == c || r == d
  {
    MaxT(MaxT(a, b), MaxT(c, d))
  }

  // ---------------------------------------------------------------- AlignTo

  const TwoTo64: nat := 0x1_0000_0000_0000_0000
  type U64 = x: nat | x < TwoTo64

  function Pow2(k: nat): (r: nat)
    ensures r >= 1
  {
    if k == 0 then 1 else 2 * Pow2(k - 1)
  }

  function BitAnd(x: nat, y: nat): (r: nat)
    ensures r <= x && r <= y
    decreases x
  {
    if x == 0 || y == 0 then 0
    else 2 * BitAnd(x / 2, y / 2) + (if x % 2 == 1 && y % 2 == 1 then 1 else 0)
  }

  function BitNot64(x: U64): (r: U64)
    ensures x + r == TwoTo64 - 1
  {
    TwoTo64 - 1 - x
  }

  function AlignTo(val: U64, alignment: U64): (r: U64)
    requires alignment != 0
  {
    if alignment == 1 || val % alignment == 0 then val
    else BitAnd((val + alignment) % TwoTo64, BitNot64(alignment - 1))
  }

  /**
   * AlignToAny<T, N>, used by Base32.hpp and RingAllocator.hpp, whose
   * definition is not part of this model: taken as rounding up to the next
   * multiple of the alignment (in 64 bits), like AlignTo for any alignment.
   */
  function AlignToAny(val: U64, alignment: U64): (r: U64)
    requires alignment != 0
  {
    if val % alignment == 0 then val else (val + alignment - val % alignment) % TwoTo64
  }

  lemma MulAtLeast(d: int, e: int)
    requires d > 0 && e >= 1
    ensures d * e >= d
  {
    var k := e - 1;
    assert d * e == d * k + d;
  }

  lemma MulNegative(d: int, e: int)
    requires d > 0 && e <= -1
    ensures d * e <= -d
  {
    MulAtLeast(d, -e);
    assert d * e == -(d * (-e));
  }

  lemma DivModUnique(x: int, d: int, t: int, r: int)
    requires d > 0 && 0 <= r < d && x == d * t + r
    ensures x / d == t && x % d == r
  {
    var q, m := x / d, x % d;
    assert d * q + m == d * t + r;
    assert d * (q - t) == r - m;
    if q - t >= 1 {
      MulAtLeast(d, q - t);
    } else if q - t <= -1 {
      MulNegative(d, q - t);
    }
  }

  lemma ModDoubleSplit(x: nat, p: nat)
    requires p > 0
    ensures x % (2 * p) == x % 2 + 2 * ((x / 2) % p)
  {
    var q, b := x / 2, x % 2;
    var t, u := q / p, q % p;
    assert q == p * t + u;
    assert 2 * (p * t) == (2 * p) * t;
    DivModUnique(x, 2 * p, t, 2 * u + b);
  }

  lemma {:induction false} BitAndAllOnes(x: nat, n: nat)
    requires x < Pow2(n)
    ensures BitAnd(x, Pow2(n) - 1) == x
  {
    if x != 0 && n != 0 {
      BitAndAllOnes(x / 2, n - 1);
    }
  }

  /** `~(2^k - 1)` restricted to n bits: ones at bits k .. n-1. */
  function HighMask(n: nat, k: nat): (r: nat)
    requires k <= n
    ensures r + Pow2(k) == Pow2(n)
  {
    if k == 0 then Pow2(n) - 1 else 2 * HighMask(n - 1, k - 1)
  }

  lemma {:induction false} BitAndHighMask(x: nat, n: nat, k: nat)
    requires k <= n && x < Pow2(n)
    ensures BitAnd(x, HighMask(n, k)) == x - x % Pow2(k)
  {
    if k == n {
      DivModUnique(x, Pow2(k), 0, x);
    } else if x == 0 {
    } else if k == 0 {
      BitAndAllOnes(x, n);
    } else {
      var y := HighMask(n, k);
      assert y % 2 == 0 && y / 2 == HighMask(n - 1, k - 1);
      assert BitAnd(x, y) == 2 * BitAnd(x / 2, y / 2);
      BitAndHighMask(x / 2, n - 1, k - 1);
      ModDoubleSplit(x, Pow2(k - 1));
    }
  }

  lemma {:induction false} Pow2Add(j: nat, k: nat)
    ensures Pow2(j + k) == Pow2(j) * Pow2(k)
  {
    if k > 0 {
      Pow2Add(j, k - 1);
    }
  }
  lemma Pow2Of64()
    ensures Pow2(64) == 0x1_0000_0000_0000_0000
  {
    assert Pow2(4) == 0x10;
    Pow2Add(4, 4);
    assert Pow2(8) == 0x100;
    Pow2Add(8, 8);
    assert Pow2(16) == 0x1_0000;
    Pow2Add(16, 16);
    assert Pow2(32) == 0x1_0000_0000;
    Pow2Add(32, 32);
  }
  lemma {:induction false} PowMono(j: nat, k: nat)
    requires j <= k
    ensures Pow2(j) <= Pow2(k)
  {
    if j < k {
      PowMono(j, k - 1);
    }
  }

  /** `~(2^k - 1)` on 64 bits is the mask of bits k .. 63. */
  lemma NotLowMask(k: nat)
    requires k < 64
    ensures Pow2(k) < TwoTo64 && BitNot64(Pow2(k) - 1) == HighMask(64, k)
  {
    Pow2Of64();
    PowMono(k, 63);
    var h := HighMask(64, k);
    assert h + Pow2(k) == TwoTo64;
  }

  /** Adding the modulus leaves the remainder unchanged. */
  lemma ModAddModulus(x: nat, a: nat)
    requires a > 0
    ensures (x + a) % a == x % a
  {
    DivModUnique(x + a, a, x / a + 1, x % a);
  }

  /** A misaligned value is rounded up by the distance to the next multiple. */
  lemma AlignToMisaligned(val: U64, k: nat)
    requires k < 64 && val + Pow2(k) < TwoTo64 && Pow2(k) != 1 && val % Pow2(k) != 0
    ensures AlignTo(val, Pow2(k)) == val + Pow2(k) - val % Pow2(k)
  {
    AlignToMisalignedMask(val, k);
    MaskedSum(val, k);
  }

  /** The misaligned branch masks the in-range sum with the high bits. */
  lemma AlignToMisalignedMask(val: U64, k: nat)
    requires k < 64 && val + Pow2(k) < TwoTo64 && Pow2(k) != 1 && val % Pow2(k) != 0
    ensures AlignTo(val, Pow2(k)) == BitAnd(val + Pow2(k), HighMask(64, k))
  {
    var a := Pow2(k);
    AlignToBranch(val, a);
    DivModUnique(val + a, TwoTo64, 0, val + a);
    assert (val + a) % TwoTo64 == val + a;
    NotLowMask(k);
    assert BitNot64(a - 1) == HighMask(64, k);
  }

  lemma AlignToBranch(val: U64, a: U64)
    requires a > 1 && val % a != 0
    ensures AlignTo(val, a) == BitAnd((val + a) % TwoTo64, BitNot64(a - 1))
  {
  }

  /** Clearing the low k bits of val + 2^k leaves val + 2^k - val % 2^k. */
  lemma MaskedSum(val: U64, k: nat)
    requires k < 64 && val + Pow2(k) < TwoTo64
    ensures BitAnd(val + Pow2(k), HighMask(64, k)) == val + Pow2(k) - val % Pow2(k)
  {
    Pow2Of64();
    BitAndHighMask(val + Pow2(k), 64, k);
    ModAddModulus(val, Pow2(k));
  }

  lemma RoundUp(val: nat, a: nat)
    requires a > 0 && val % a != 0
    ensures (val + a - val % a) % a == 0
    ensures val < val + a - val % a < val + a
  {
    DivModUnique(val + a - val % a, a, val / a + 1, 0);
  }

  /** For a power-of-two alignment (without wrap of val + a) AlignTo gives a multiple of a in [val, val + a). */
  lemma AlignToPow2(val: U64, k: nat)
    requires k < 64 && val + Pow2(k) < TwoTo64
    ensures AlignTo(val, Pow2(k)) % Pow2(k) == 0
    ensures val <= AlignTo(val, Pow2(k)) < val + Pow2(k)
  {
    var a := Pow2(k);
    if a == 1 {
      DivModUnique(val, 1, val, 0);
    } else if val % a != 0 {
      AlignToMisaligned(val, k);
      RoundUp(val, a);
    }
  }

  /** ... and it is the least such multiple. */
  lemma AlignToIsLeast(val: U64, k: nat, m: nat)
    requires k < 64 && val + Pow2(k) < TwoTo64
    requires m % Pow2(k) == 0 && val <= m
    ensures AlignTo(val, Pow2(k)) <= m
  {
    var a := Pow2(k);
    if a != 1 && val % a != 0 {
      AlignToMisaligned(val, k);
      LeastMultiple(val, a, m);
    }
  }

  /** AlignToAny gives the least multiple of the alignment that is at least val. */
  lemma AlignToAnyIsLeast(val: U64, alignment: U64, m: nat)
    requires alignment != 0 && val + alignment < TwoTo64
    requires m % alignment == 0 && val <= m
    ensures AlignToAny(val, alignment) % alignment == 0
    ensures val <= AlignToAny(val, alignment) <= m
  {
    if val % alignment != 0 {
      RoundUp(val, alignment);
      LeastMultiple(val, alignment, m);
    }
  }

  lemma LeastMultiple(val: nat, a: nat, m: nat)
    requires a > 0 && m % a == 0 && val <= m
    ensures val + a - val % a <= m || val % a == 0
  {
    var r := val + a - val % a;
    if m < r && val % a != 0 {
      DivModUnique(r, a, val / a + 1, 0);
      var d := (val / a + 1) - m / a;
      assert a * d == r - m;
      if d >= 1 {
        MulAtLeast(a, d);
      } else {
        MulNegative(a, d);
      }
    }
  }

  // ---------------------------------------------------------------- 8-bit

  const DeBruijnConstant8: bv8 := 0x17

  /** The 8-entry De Bruijn lookup table, laid out as a binary search on the index. */
  function DeBruijnTable8(i: bv8): (r: bv8)
    requires i < 8
    ensures r < 8
  {
    if i < 4 then
      if i < 2 then
        if i < 1 then
          0
        else
          1
      else
        if i < 3 then
          2
        else
          4
    else
      if i < 6 then
        if i < 5 then
          7
        else
          3
      else
        if i < 7 then
          6
        else
          5
  }

  /** Table lookup of an isolated bit: multiply by the De Bruijn constant modulo 2^8, keep the top 3 bits. */
  function DeBruijnLookup8(x: bv8): (r: bv8)
    ensures r < 8
  {
    DeBruijnTable8((x * DeBruijnConstant8) >> 5)
  }

  /** `v - (v >> 1)` after `v ^= v - 1`: the lowest set bit of v on its own. */
  function LowBit8(v: bv8): bv8 {
    var m := v ^ (v - 1);
    m - (m >> 1)
  }

  /** The shift-or cascade that sets every bit below the highest set bit. */
  function Smear8(v: bv8): bv8 {
    var v1 := v | (v >> 1);
    var v2 := v1 | (v1 >> 2);
    var v3 := v2 | (v2 >> 4);
    v3
  }

  function CountTrailingZeroC8(v: bv8): (r: bv8)
    ensures r < 8
  {
    DeBruijnLookup8(LowBit8(v))
  }

  function CountLeadingZeroC8(v: bv8): (r: bv8)
    ensures r < 8
  {
    var s := Smear8(v);
    7 - DeBruijnLookup8(s - (s >> 1))
  }

  function Log2i8(v: bv8): (r: bv8)
    ensures r < 8
  {
    7 - CountLeadingZeroC8(v)
  }

  /** Bit k is set and every bit below it is clear. */
  predicate IsLowestSetBit8(v: bv8, k: bv8) {
    k < 8 && v & (1 << k) != 0 && v & ((1 << k) - 1) == 0
  }

  /** Bit h is set and every bit above it is clear. */
  predicate IsHighestSetBit8(v: bv8, h: bv8) {
    h < 8 && v >> h == 1
  }

  lemma DeBruijnLookup8InvertsFrom0(k: bv8)
    requires k < 8
    ensures DeBruijnLookup8(1 << k) == k
  {
    if k == 0 { assert DeBruijnLookup8(0x01) == 0; }
    else if k == 1 { assert DeBruijnLookup8(0x02) == 1; }
    else if k == 2 { assert DeBruijnLookup8(0x04) == 2; }
    else if k == 3 { assert DeBruijnLookup8(0x08) == 3; }
    else if k == 4 { assert DeBruijnLookup8(0x10) == 4; }
    else if k == 5 { assert DeBruijnLookup8(0x20) == 5; }
    else if k == 6 { assert DeBruijnLookup8(0x40) == 6; }
    else if k == 7 { assert DeBruijnLookup8(0x80) == 7; }
  }

  /** The table inverts the De Bruijn hash of every power of two. */
  lemma DeBruijnLookup8Inverts(k: bv8)
    requires k < 8
    ensures DeBruijnLookup8(1 << k) == k
  {
    DeBruijnLookup8InvertsFrom0(k);
  }

  lemma LowBit8Isolates(v: bv8, k: bv8)
    requires IsLowestSetBit8(v, k)
    ensures LowBit8(v) == 1 << k
  {
  }

  lemma Smear8TopFrom0(v: bv8, h: bv8)
    requires h < 8 && IsHighestSetBit8(v, h)
    ensures Smear8(v) - (Smear8(v) >> 1) == 1 << h
  {
    if h == 0 { assert Smear8(v) == 0x01; }
    else if h == 1 { assert Smear8(v) == 0x03; }
    else if h == 2 { assert Smear8(v) == 0x07; }
    else if h == 3 { assert Smear8(v) == 0x0F; }
    else if h == 4 { assert Smear8(v) == 0x1F; }
    else if h == 5 { assert Smear8(v) == 0x3F; }
    else if h == 6 { assert Smear8(v) == 0x7F; }
    else if h == 7 { assert Smear8(v) == 0xFF; }
  }

  /** Smearing leaves exactly the bits at and below the highest set bit. */
  lemma Smear8Top(v: bv8, h: bv8)
    requires IsHighestSetBit8(v, h)
    ensures Smear8(v) - (Smear8(v) >> 1) == 1 << h
  {
    Smear8TopFrom0(v, h);
  }

  /** Every non-zero word has a lowest set bit. */
  lemma LowestSetBit8Exists(v: bv8) returns (k: bv8)
    requires v != 0
    ensures IsLowestSetBit8(v, k)
  {
    if v & 0x01 != 0 { k := 0; }
    else if v & 0x02 != 0 { k := 1; }
    else if v & 0x04 != 0 { k := 2; }
    else if v & 0x08 != 0 { k := 3; }
    else if v & 0x10 != 0 { k := 4; }
    else if v & 0x20 != 0 { k := 5; }
    else if v & 0x40 != 0 { k := 6; }
    else if v & 0x80 != 0 { k := 7; }
    else { assert false; }
  }

  /** Every non-zero word has a highest set bit. */
  lemma HighestSetBit8Exists(v: bv8) returns (h: bv8)
    requires v != 0
    ensures IsHighestSetBit8(v, h)
  {
    if v >> 7 != 0 { h := 7; }
    else if v >> 6 != 0 { h := 6; }
    else if v >> 5 != 0 { h := 5; }
    else if v >> 4 != 0 { h := 4; }
    else if v >> 3 != 0 { h := 3; }
    else if v >> 2 != 0 { h := 2; }
    else if v >> 1 != 0 { h := 1; }
    else if v >> 0 != 0 { h := 0; }
    else { assert false; }
  }

  /** For v != 0 the table branch of CountTrailingZeroC yields the index of the lowest set bit. */
  lemma CountTrailingZeroC8Correct(v: bv8)
    requires v != 0
    ensures IsLowestSetBit8(v, CountTrailingZeroC8(v))
  {
    var k := LowestSetBit8Exists(v);
    LowBit8Isolates(v, k);
    DeBruijnLookup8Inverts(k);
  }

  /** Exactly c bits lie above the highest set bit of v. */
  predicate HasLeadingZeros8(v: bv8, c: bv8) {
    c < 8 && IsHighestSetBit8(v, 7 - c)
  }

  /** For v != 0 CountLeadingZeroC yields the number of clear bits above the highest set bit. */
  lemma CountLeadingZeroC8Correct(v: bv8)
    requires v != 0
    ensures HasLeadingZeros8(v, CountLeadingZeroC8(v))
  {
    var h := HighestSetBit8Exists(v);
    Smear8Top(v, h);
    DeBruijnLookup8Inverts(h);
  }

  /** For v != 0, log2i(v) = floor(log2 v): 2^r <= v < 2^(r+1). */
  lemma Log2i8Correct(v: bv8)
    requires v != 0
    ensures (1 as bv8) << Log2i8(v) <= v
    ensures Log2i8(v) < 7 ==> v < (1 as bv8) << (Log2i8(v) + 1)
  {
    CountLeadingZeroC8Correct(v);
    Log2Bounds8(v, Log2i8(v));
  }

  lemma Log2Bounds8(v: bv8, h: bv8)
    requires IsHighestSetBit8(v, h)
    ensures (1 as bv8) << h <= v
    ensures h < 7 ==> v < (1 as bv8) << (h + 1)
  {
  }

  /** Zero has no set bit; the table branch then returns 7 for both counts. */
  lemma CountZeroC8OfZero()
    ensures CountTrailingZeroC8(0) == 7 && CountLeadingZeroC8(0) == 7
  {
  }

  // ---------------------------------------------------------------- 16-bit

  const DeBruijnConstant16: bv16 := 0x09AF

  /** The 16-entry De Bruijn lookup table, laid out as a binary search on the index. */
  function DeBruijnTable16(i: bv16): (r: bv16)
    requires i < 16
    ensures r < 16
  {
    if i < 8 then
      if i < 4 then
        if i < 2 then
          if i < 1 then
            0
          else
            1
        else
          if i < 3 then
            2
          else
            5
      else
        if i < 6 then
          if i < 5 then
            3
          else
            9
        else
          if i < 7 then
            6
          else
            11
    else
      if i < 12 then
        if i < 10 then
          if i < 9 then
            15
          else
            4
        else
          if i < 11 then
            8
          else
            10
      else
        if i < 14 then
          if i < 13 then
            14
          else
            7
        else
          if i < 15 then
            13
          else
            12
  }

  /** Table lookup of an isolated bit: multiply by the De Bruijn constant modulo 2^16, keep the top 4 bits. */
  function DeBruijnLookup16(x: bv16): (r: bv16)
    ensures r < 16
  {
    DeBruijnTable16((x * DeBruijnConstant16) >> 12)
  }

  /** `v - (v >> 1)` after `v ^= v - 1`: the lowest set bit of v on its own. */
  function LowBit16(v: bv16): bv16 {
    var m := v ^ (v - 1);
    m - (m >> 1)
  }

  /** The shift-or cascade that sets every bit below the highest set bit. */
  function Smear16(v: bv16): bv16 {
    var v1 := v | (v >> 1);
    var v2 := v1 | (v1 >> 2);
    var v3 := v2 | (v2 >> 4);
    var v4 := v3 | (v3 >> 8);
    v4
  }

  function CountTrailingZeroC16(v: bv16): (r: bv16)
    ensures r < 16
  {
    DeBruijnLookup16(LowBit16(v))
  }

  function CountLeadingZeroC16(v: bv16): (r: bv16)
    ensures r < 16
  {
    var s := Smear16(v);
    15 - DeBruijnLookup16(s - (s >> 1))
  }

  function Log2i16(v: bv16): (r: bv16)
    ensures r < 16
  {
    15 - CountLeadingZeroC16(v)
  }

  /** Bit k is set and every bit below it is clear. */
  predicate IsLowestSetBit16(v: bv16, k: bv16) {
    k < 16 && v & (1 << k) != 0 && v & ((1 << k) - 1) == 0
  }

  /** Bit h is set and every bit above it is clear. */
  predicate IsHighestSetBit16(v: bv16, h: bv16) {
    h < 16 && v >> h == 1
  }

  lemma DeBruijnLookup16InvertsFrom0(k: bv16)
    requires k < 8
    ensures DeBruijnLookup16(1 << k) == k
  {
    if k == 0 { assert DeBruijnLookup16(0x0001) == 0; }
    else if k == 1 { assert DeBruijnLookup16(0x0002) == 1; }
    else if k == 2 { assert DeBruijnLookup16(0x0004) == 2; }
    else if k == 3 { assert DeBruijnLookup16(0x0008) == 3; }
    else if k == 4 { assert DeBruijnLookup16(0x0010) == 4; }
    else if k == 5 { assert DeBruijnLookup16(0x0020) == 5; }
    else if k == 6 { assert DeBruijnLookup16(0x0040) == 6; }
    else if k == 7 { assert DeBruijnLookup16(0x0080) == 7; }
  }

  lemma DeBruijnLookup16InvertsFrom8(k: bv16)
    requires 8 <= k < 16
    ensures DeBruijnLookup16(1 << k) == k
  {
    if k == 8 { assert DeBruijnLookup16(0x0100) == 8; }
    else if k == 9 { assert DeBruijnLookup16(0x0200) == 9; }
    else if k == 10 { assert DeBruijnLookup16(0x0400) == 10; }
    else if k == 11 { assert DeBruijnLookup16(0x0800) == 11; }
    else if k == 12 { assert DeBruijnLookup16(0x1000) == 12; }
    else if k == 13 { assert DeBruijnLookup16(0x2000) == 13; }
    else if k == 14 { assert DeBruijnLookup16(0x4000) == 14; }
    else if k == 15 { assert DeBruijnLookup16(0x8000) == 15; }
  }

  /** The table inverts the De Bruijn hash of every power of two. */
  lemma DeBruijnLookup16Inverts(k: bv16)
    requires k < 16
    ensures DeBruijnLookup16(1 << k) == k
  {
    if k < 8 { DeBruijnLookup16InvertsFrom0(k); }
    else { DeBruijnLookup16InvertsFrom8(k); }
  }

  lemma LowBit16Isolates(v: bv16, k: bv16)
    requires IsLowestSetBit16(v, k)
    ensures LowBit16(v) == 1 << k
  {
  }

  lemma Smear16TopFrom0(v: bv16, h: bv16)
    requires h < 8 && IsHighestSetBit16(v, h)
    ensures Smear16(v) - (Smear16(v) >> 1) == 1 << h
  {
    if h == 0 { assert Smear16(v) == 0x0001; }
    else if h == 1 { assert Smear16(v) == 0x0003; }
    else if h == 2 { assert Smear16(v) == 0x0007; }
    else if h == 3 { assert Smear16(v) == 0x000F; }
    else if h == 4 { assert Smear16(v) == 0x001F; }
    else if h == 5 { assert Smear16(v) == 0x003F; }
    else if h == 6 { assert Smear16(v) == 0x007F; }
    else if h == 7 { assert Smear16(v) == 0x00FF; }
  }

  lemma Smear16TopFrom8(v: bv16, h: bv16)
    requires 8 <= h < 16 && IsHighestSetBit16(v, h)
    ensures Smear16(v) - (Smear16(v) >> 1) == 1 << h
  {
    if h == 8 { assert Smear16(v) == 0x01FF; }
    else if h == 9 { assert Smear16(v) == 0x03FF; }
    else if h == 10 { assert Smear16(v) == 0x07FF; }
    else if h == 11 { assert Smear16(v) == 0x0FFF; }
    else if h == 12 { assert Smear16(v) == 0x1FFF; }
    else if h == 13 { assert Smear16(v) == 0x3FFF; }
    else if h == 14 { assert Smear16(v) == 0x7FFF; }
    else if h == 15 { assert Smear16(v) == 0xFFFF; }
  }

  /** Smearing leaves exactly the bits at and below the highest set bit. */
  lemma Smear16Top(v: bv16, h: bv16)
    requires IsHighestSetBit16(v, h)
    ensures Smear16(v) - (Smear16(v) >> 1) == 1 << h
  {
    if h < 8 { Smear16TopFrom0(v, h); }
    else { Smear16TopFrom8(v, h); }
  }

  /** Every non-zero word has a lowest set bit. */
  lemma LowestSetBit16Exists(v: bv16) returns (k: bv16)
    requires v != 0
    ensures IsLowestSetBit16(v, k)
  {
    if v & 0x0001 != 0 { k := 0; }
    else if v & 0x0002 != 0 { k := 1; }
    else if v & 0x0004 != 0 { k := 2; }
    else if v & 0x0008 != 0 { k := 3; }
    else if v & 0x0010 != 0 { k := 4; }
    else if v & 0x0020 != 0 { k := 5; }
    else if v & 0x0040 != 0 { k := 6; }
    else if v & 0x0080 != 0 { k := 7; }
    else if v & 0x0100 != 0 { k := 8; }
    else if v & 0x0200 != 0 { k := 9; }
    else if v & 0x0400 != 0 { k := 10; }
    else if v & 0x0800 != 0 { k := 11; }
    else if v & 0x1000 != 0 { k := 12; }
    else if v & 0x2000 != 0 { k := 13; }
    else if v & 0x4000 != 0 { k := 14; }
    else if v & 0x8000 != 0 { k := 15; }
    else { assert false; }
  }

  /** Every non-zero word has a highest set bit. */
  lemma HighestSetBit16Exists(v: bv16) returns (h: bv16)
    requires v != 0
    ensures IsHighestSetBit16(v, h)
  {
    if v >> 15 != 0 { h := 15; }
    else if v >> 14 != 0 { h := 14; }
    else if v >> 13 != 0 { h := 13; }
    else if v >> 12 != 0 { h := 12; }
    else if v >> 11 != 0 { h := 11; }
    else if v >> 10 != 0 { h := 10; }
    else if v >> 9 != 0 { h := 9; }
    else if v >> 8 != 0 { h := 8; }
    else if v >> 7 != 0 { h := 7; }
    else if v >> 6 != 0 { h := 6; }
    else if v >> 5 != 0 { h := 5; }
    else if v >> 4 != 0 { h := 4; }
    else if v >> 3 != 0 { h := 3; }
    else if v >> 2 != 0 { h := 2; }
    else if v >> 1 != 0 { h := 1; }
    else if v >> 0 != 0 { h := 0; }
    else { assert false; }
  }

  /** For v != 0 the table branch of CountTrailingZeroC yields the index of the lowest set bit. */
  lemma CountTrailingZeroC16Correct(v: bv16)
    requires v != 0
    ensures IsLowestSetBit16(v, CountTrailingZeroC16(v))
  {
    var k := LowestSetBit16Exists(v);
    LowBit16Isolates(v, k);
    DeBruijnLookup16Inverts(k);
  }

  /** Exactly c bits lie above the highest set bit of v. */
  predicate HasLeadingZeros16(v: bv16, c: bv16) {
    c < 16 && IsHighestSetBit16(v, 15 - c)
  }

  /** For v != 0 CountLeadingZeroC yields the number of clear bits above the highest set bit. */
  lemma CountLeadingZeroC16Correct(v: bv16)
    requires v != 0
    ensures HasLeadingZeros16(v, CountLeadingZeroC16(v))
  {
    var h := HighestSetBit16Exists(v);
    Smear16Top(v, h);
    DeBruijnLookup16Inverts(h);
  }

  /** For v != 0, log2i(v) = floor(log2 v): 2^r <= v < 2^(r+1). */
  lemma Log2i16Correct(v: bv16)
    requires v != 0
    ensures (1 as bv16) << Log2i16(v) <= v
    ensures Log2i16(v) < 15 ==> v < (1 as bv16) << (Log2i16(v) + 1)
  {
    CountLeadingZeroC16Correct(v);
    Log2Bounds16(v, Log2i16(v));
  }

  lemma Log2Bounds16(v: bv16, h: bv16)
    requires IsHighestSetBit16(v, h)
    ensures (1 as bv16) << h <= v
    ensures h < 15 ==> v < (1 as bv16) << (h + 1)
  {
  }

  /** Zero has no set bit; the table branch then returns 15 for both counts. */
  lemma CountZeroC16OfZero()
    ensures CountTrailingZeroC16(0) == 15 && CountLeadingZeroC16(0) == 15
  {
  }

  // ---------------------------------------------------------------- 32-bit

  const DeBruijnConstant32: bv32 := 0x0465_3ADF

  /** The 32-entry De Bruijn lookup table, laid out as a binary search on the index. */
  function DeBruijnTable32(i: bv32): (r: bv32)
    requires i < 32
    ensures r < 32
  {
    if i < 16 then
      if i < 8 then
        if i < 4 then
          if i < 2 then
            if i < 1 then
              0
            else
              1
          else
            if i < 3 then
              2
            else
              6
        else
          if i < 6 then
            if i < 5 then
              3
            else
              11
          else
            if i < 7 then
              7
            else
              16
      else
        if i < 12 then
          if i < 10 then
            if i < 9 then
              4
            else
              14
          else
            if i < 11 then
              12
            else
              21
        else
          if i < 14 then
            if i < 13 then
              8
            else
              23
          else
            if i < 15 then
              17
            else
              26
    else
      if i < 24 then
        if i < 20 then
          if i < 18 then
            if i < 17 then
              31
            else
              5
          else
            if i < 19 then
              10
            else
              15
        else
          if i < 22 then
            if i < 21 then
              13
            else
              20
          else
            if i < 23 then
              22
            else
              25
      else
        if i < 28 then
          if i < 26 then
            if i < 25 then
              30
            else
              9
          else
            if i < 27 then
              19
            else
              24
        else
          if i < 30 then
            if i < 29 then
              29
            else
              18
          else
            if i < 31 then
              28
            else
              27
  }

  /** Table lookup of an isolated bit: multiply by the De Bruijn constant modulo 2^32, keep the top 5 bits. */
  function DeBruijnLookup32(x: bv32): (r: bv32)
    ensures r < 32
  {
    DeBruijnTable32((x * DeBruijnConstant32) >> 27)
  }

  /** `v - (v >> 1)` after `v ^= v - 1`: the lowest set bit of v on its own. */
  function LowBit32(v: bv32): bv32 {
    var m := v ^ (v - 1);
    m - (m >> 1)
  }

  /** The shift-or cascade that sets every bit below the highest set bit. */
  function Smear32(v: bv32): bv32 {
    var v1 := v | (v >> 1);
    var v2 := v1 | (v1 >> 2);
    var v3 := v2 | (v2 >> 4);
    var v4 := v3 | (v3 >> 8);
    var v5 := v4 | (v4 >> 16);
    v5
  }

  function CountTrailingZeroC32(v: bv32): (r: bv32)
    ensures r < 32
  {
    DeBruijnLookup32(LowBit32(v))
  }

  function CountLeadingZeroC32(v: bv32): (r: bv32)
    ensures r < 32
  {
    var s := Smear32(v);
    31 - DeBruijnLookup32(s - (s >> 1))
  }

  function Log2i32(v: bv32): (r: bv32)
    ensures r < 32
  {
    31 - CountLeadingZeroC32(v)
  }

  /** Bit k is set and every bit below it is clear. */
  predicate IsLowestSetBit32(v: bv32, k: bv32) {
    k < 32 && v & (1 << k) != 0 && v & ((1 << k) - 1) == 0
  }

  /** Bit h is set and every bit above it is clear. */
  predicate IsHighestSetBit32(v: bv32, h: bv32) {
    h < 32 && v >> h == 1
  }

  lemma DeBruijnLookup32InvertsFrom0(k: bv32)
    requires k < 8
    ensures DeBruijnLookup32(1 << k) == k
  {
    if k == 0 { assert DeBruijnLookup32(0x0000_0001) == 0; }
    else if k == 1 { assert DeBruijnLookup32(0x0000_0002) == 1; }
    else if k == 2 { assert DeBruijnLookup32(0x0000_0004) == 2; }
    else if k == 3 { assert DeBruijnLookup32(0x0000_0008) == 3; }
    else if k == 4 { assert DeBruijnLookup32(0x0000_0010) == 4; }
    else if k == 5 { assert DeBruijnLookup32(0x0000_0020) == 5; }
    else if k == 6 { assert DeBruijnLookup32(0x0000_0040) == 6; }
    else if k == 7 { assert DeBruijnLookup32(0x0000_0080) == 7; }
  }

  lemma DeBruijnLookup32InvertsFrom8(k: bv32)
    requires 8 <= k < 16
    ensures DeBruijnLookup32(1 << k) == k
  {
    if k == 8 { assert DeBruijnLookup32(0x0000_0100) == 8; }
    else if k == 9 { assert DeBruijnLookup32(0x0000_0200) == 9; }
    else if k == 10 { assert DeBruijnLookup32(0x0000_0400) == 10; }
    else if k == 11 { assert DeBruijnLookup32(0x0000_0800) == 11; }
    else if k == 12 { assert DeBruijnLookup32(0x0000_1000) == 12; }
    else if k == 13 { assert DeBruijnLookup32(0x0000_2000) == 13; }
    else if k == 14 { assert DeBruijnLookup32(0x0000_4000) == 14; }
    else if k == 15 { assert DeBruijnLookup32(0x0000_8000) == 15; }
  }

  lemma DeBruijnLookup32InvertsFrom16(k: bv32)
    requires 16 <= k < 24
    ensures DeBruijnLookup32(1 << k) == k
  {
    if k == 16 { assert DeBruijnLookup32(0x0001_0000) == 16; }
    else if k == 17 { assert DeBruijnLookup32(0x0002_0000) == 17; }
    else if k == 18 { assert DeBruijnLookup32(0x0004_0000) == 18; }
    else if k == 19 { assert DeBruijnLookup32(0x0008_0000) == 19; }
    else if k == 20 { assert DeBruijnLookup32(0x0010_0000) == 20; }
    else if k == 21 { assert DeBruijnLookup32(0x0020_0000) == 21; }
    else if k == 22 { assert DeBruijnLookup32(0x0040_0000) == 22; }
    else if k == 23 { assert DeBruijnLookup32(0x0080_0000) == 23; }
  }

  lemma DeBruijnLookup32InvertsFrom24(k: bv32)
    requires 24 <= k < 32
    ensures DeBruijnLookup32(1 << k) == k
  {
    if k == 24 { assert DeBruijnLookup32(0x0100_0000) == 24; }
    else if k == 25 { assert DeBruijnLookup32(0x0200_0000) == 25; }
    else if k == 26 { assert DeBruijnLookup32(0x0400_0000) == 26; }
    else if k == 27 { assert DeBruijnLookup32(0x0800_0000) == 27; }
    else if k == 28 { assert DeBruijnLookup32(0x1000_0000) == 28; }
    else if k == 29 { assert DeBruijnLookup32(0x2000_0000) == 29; }
    else if k == 30 { assert DeBruijnLookup32(0x4000_0000) == 30; }
    else if k == 31 { assert DeBruijnLookup32(0x8000_0000) == 31; }
  }

  /** The table inverts the De Bruijn hash of every power of two. */
  lemma DeBruijnLookup32Inverts(k: bv32)
    requires k < 32
    ensures DeBruijnLookup32(1 << k) == k
  {
    if k < 8 { DeBruijnLookup32InvertsFrom0(k); }
    else if k < 16 { DeBruijnLookup32InvertsFrom8(k); }
    else if k < 24 { DeBruijnLookup32InvertsFrom16(k); }
    else { DeBruijnLookup32InvertsFrom24(k); }
  }

  lemma LowBit32Isolates(v: bv32, k: bv32)
    requires IsLowestSetBit32(v, k)
    ensures LowBit32(v) == 1 << k
  {
  }

  lemma Smear32TopFrom0(v: bv32, h: bv32)
    requires h < 8 && IsHighestSetBit32(v, h)
    ensures Smear32(v) - (Smear32(v) >> 1) == 1 << h
  {
    if h == 0 { assert Smear32(v) == 0x0000_0001; }
    else if h == 1 { assert Smear32(v) == 0x0000_0003; }
    else if h == 2 { assert Smear32(v) == 0x0000_0007; }
    else if h == 3 { assert Smear32(v) == 0x0000_000F; }
    else if h == 4 { assert Smear32(v) == 0x0000_001F; }
    else if h == 5 { assert Smear32(v) == 0x0000_003F; }
    else if h == 6 { assert Smear32(v) == 0x0000_007F; }
    else if h == 7 { assert Smear32(v) == 0x0000_00FF; }
  }

  lemma Smear32TopFrom8(v: bv32, h: bv32)
    requires 8 <= h < 16 && IsHighestSetBit32(v, h)
    ensures Smear32(v) - (Smear32(v) >> 1) == 1 << h
  {
    if h == 8 { assert Smear32(v) == 0x0000_01FF; }
    else if h == 9 { assert Smear32(v) == 0x0000_03FF; }
    else if h == 10 { assert Smear32(v) == 0x0000_07FF; }
    else if h == 11 { assert Smear32(v) == 0x0000_0FFF; }
    else if h == 12 { assert Smear32(v) == 0x0000_1FFF; }
    else if h == 13 { assert Smear32(v) == 0x0000_3FFF; }
    else if h == 14 { assert Smear32(v) == 0x0000_7FFF; }
    else if h == 15 { assert Smear32(v) == 0x0000_FFFF; }
  }

  lemma Smear32TopFrom16(v: bv32, h: bv32)
    requires 16 <= h < 24 && IsHighestSetBit32(v, h)
    ensures Smear32(v) - (Smear32(v) >> 1) == 1 << h
  {
    if h == 16 { assert Smear32(v) == 0x0001_FFFF; }
    else if h == 17 { assert Smear32(v) == 0x0003_FFFF; }
    else if h == 18 { assert Smear32(v) == 0x0007_FFFF; }
    else if h == 19 { assert Smear32(v) == 0x000F_FFFF; }
    else if h == 20 { assert Smear32(v) == 0x001F_FFFF; }
    else if h == 21 { assert Smear32(v) == 0x003F_FFFF; }
    else if h == 22 { assert Smear32(v) == 0x007F_FFFF; }
    else if h == 23 { assert Smear32(v) == 0x00FF_FFFF; }
  }

  lemma Smear32TopFrom24(v: bv32, h: bv32)
    requires 24 <= h < 32 && IsHighestSetBit32(v, h)
    ensures Smear32(v) - (Smear32(v) >> 1) == 1 << h
  {
    if h == 24 { assert Smear32(v) == 0x01FF_FFFF; }
    else if h == 25 { assert Smear32(v) == 0x03FF_FFFF; }
    else if h == 26 { assert Smear32(v) == 0x07FF_FFFF; }
    else if h == 27 { assert Smear32(v) == 0x0FFF_FFFF; }
    else if h == 28 { assert Smear32(v) == 0x1FFF_FFFF; }
    else if h == 29 { assert Smear32(v) == 0x3FFF_FFFF; }
    else if h == 30 { assert Smear32(v) == 0x7FFF_FFFF; }
    else if h == 31 { assert Smear32(v) == 0xFFFF_FFFF; }
  }

  /** Smearing leaves exactly the bits at and below the highest set bit. */
  lemma Smear32Top(v: bv32, h: bv32)
    requires IsHighestSetBit32(v, h)
    ensures Smear32(v) - (Smear32(v) >> 1) == 1 << h
  {
    if h < 8 { Smear32TopFrom0(v, h); }
    else if h < 16 { Smear32TopFrom8(v, h); }
    else if h < 24 { Smear32TopFrom16(v, h); }
    else { Smear32TopFrom24(v, h); }
  }

  /** Every non-zero word has a lowest set bit. */
  lemma LowestSetBit32Exists(v: bv32) returns (k: bv32)
    requires v != 0
    ensures IsLowestSetBit32(v, k)
  {
    if v & 0x0000_0001 != 0 { k := 0; }
    else if v & 0x0000_0002 != 0 { k := 1; }
    else if v & 0x0000_0004 != 0 { k := 2; }
    else if v & 0x0000_0008 != 0 { k := 3; }
    else if v & 0x0000_0010 != 0 { k := 4; }
    else if v & 0x0000_0020 != 0 { k := 5; }
    else if v & 0x0000_0040 != 0 { k := 6; }
    else if v & 0x0000_0080 != 0 { k := 7; }
    else if v & 0x0000_0100 != 0 { k := 8; }
    else if v & 0x0000_0200 != 0 { k := 9; }
    else if v & 0x0000_0400 != 0 { k := 10; }
    else if v & 0x0000_0800 != 0 { k := 11; }
    else if v & 0x0000_1000 != 0 { k := 12; }
    else if v & 0x0000_2000 != 0 { k := 13; }
    else if v & 0x0000_4000 != 0 { k := 14; }
    else if v & 0x0000_8000 != 0 { k := 15; }
    else if v & 0x0001_0000 != 0 { k := 16; }
    else if v & 0x0002_0000 != 0 { k := 17; }
    else if v & 0x0004_0000 != 0 { k := 18; }
    else if v & 0x0008_0000 != 0 { k := 19; }
    else if v & 0x0010_0000 != 0 { k := 20; }
    else if v & 0x0020_0000 != 0 { k := 21; }
    else if v & 0x0040_0000 != 0 { k := 22; }
    else if v & 0x0080_0000 != 0 { k := 23; }
    else if v & 0x0100_0000 != 0 { k := 24; }
    else if v & 0x0200_0000 != 0 { k := 25; }
    else if v & 0x0400_0000 != 0 { k := 26; }
    else if v & 0x0800_0000 != 0 { k := 27; }
    else if v & 0x1000_0000 != 0 { k := 28; }
    else if v & 0x2000_0000 != 0 { k := 29; }
    else if v & 0x4000_0000 != 0 { k := 30; }
    else if v & 0x8000_0000 != 0 { k := 31; }
    else { assert false; }
  }

  /** Every non-zero word has a highest set bit. */
  lemma HighestSetBit32Exists(v: bv32) returns (h: bv32)
    requires v != 0
    ensures IsHighestSetBit32(v, h)
  {
    if v >> 31 != 0 { h := 31; }
    else if v >> 30 != 0 { h := 30; }
    else if v >> 29 != 0 { h := 29; }
    else if v >> 28 != 0 { h := 28; }
    else if v >> 27 != 0 { h := 27; }
    else if v >> 26 != 0 { h := 26; }
    else if v >> 25 != 0 { h := 25; }
    else if v >> 24 != 0 { h := 24; }
    else if v >> 23 != 0 { h := 23; }
    else if v >> 22 != 0 { h := 22; }
    else if v >> 21 != 0 { h := 21; }
    else if v >> 20 != 0 { h := 20; }
    else if v >> 19 != 0 { h := 19; }
    else if v >> 18 != 0 { h := 18; }
    else if v >> 17 != 0 { h := 17; }
    else if v >> 16 != 0 { h := 16; }
    else if v >> 15 != 0 { h := 15; }
    else if v >> 14 != 0 { h := 14; }
    else if v >> 13 != 0 { h := 13; }
    else if v >> 12 != 0 { h := 12; }
    else if v >> 11 != 0 { h := 11; }
    else if v >> 10 != 0 { h := 10; }
    else if v >> 9 != 0 { h := 9; }
    else if v >> 8 != 0 { h := 8; }
    else if v >> 7 != 0 { h := 7; }
    else if v >> 6 != 0 { h := 6; }
    else if v >> 5 != 0 { h := 5; }
    else if v >> 4 != 0 { h := 4; }
    else if v >> 3 != 0 { h := 3; }
    else if v >> 2 != 0 { h := 2; }
    else if v >> 1 != 0 { h := 1; }
    else if v >> 0 != 0 { h := 0; }
    else { assert false; }
  }

  /** For v != 0 the table branch of CountTrailingZeroC yields the index of the lowest set bit. */
  lemma CountTrailingZeroC32Correct(v: bv32)
    requires v != 0
    ensures IsLowestSetBit32(v, CountTrailingZeroC32(v))
  {
    var k := LowestSetBit32Exists(v);
    LowBit32Isolates(v, k);
    DeBruijnLookup32Inverts(k);
  }

  /** Exactly c bits lie above the highest set bit of v. */
  predicate HasLeadingZeros32(v: bv32, c: bv32) {
    c < 32 && IsHighestSetBit32(v, 31 - c)
  }

  /** For v != 0 CountLeadingZeroC yields the number of clear bits above the highest set bit. */
  lemma CountLeadingZeroC32Correct(v: bv32)
    requires v != 0
    ensures HasLeadingZeros32(v, CountLeadingZeroC32(v))
  {
    var h := HighestSetBit32Exists(v);
    Smear32Top(v, h);
    DeBruijnLookup32Inverts(h);
  }

  /** For v != 0, log2i(v) = floor(log2 v): 2^r <= v < 2^(r+1). */
  lemma Log2i32Correct(v: bv32)
    requires v != 0
    ensures (1 as bv32) << Log2i32(v) <= v
    ensures Log2i32(v) < 31 ==> v < (1 as bv32) << (Log2i32(v) + 1)
  {
    CountLeadingZeroC32Correct(v);
    Log2Bounds32(v, Log2i32(v));
  }

  lemma Log2Bounds32(v: bv32, h: bv32)
    requires IsHighestSetBit32(v, h)
    ensures (1 as bv32) << h <= v
    ensures h < 31 ==> v < (1 as bv32) << (h + 1)
  {
  }

  /** Zero has no set bit; the table branch then returns 31 for both counts. */
  lemma CountZeroC32OfZero()
    ensures CountTrailingZeroC32(0) == 31 && CountLeadingZeroC32(0) == 31
  {
  }

  // ---------------------------------------------------------------- 64-bit

  const DeBruijnConstant64: bv64 := 0x0218_A392_CD3D_5DBF

  /** The 64-entry De Bruijn lookup table, laid out as a binary search on the index. */
  function DeBruijnTable64(i: bv64): (r: bv64)
    requires i < 64
    ensures r < 64
  {
    if i < 32 then
      if i < 16 then
        if i < 8 then
          if i < 4 then
            if i < 2 then
              if i < 1 then
                0
              else
                1
            else
              if i < 3 then
                2
              else
                7
          else
            if i < 6 then
              if i < 5 then
                3
              else
                13
            else
              if i < 7 then
                8
              else
                19
        else
          if i < 12 then
            if i < 10 then
              if i < 9 then
                4
              else
                25
            else
              if i < 11 then
                14
              else
                28
          else
            if i < 14 then
              if i < 13 then
                9
              else
                34
            else
              if i < 15 then
                20
              else
                40
      else
        if i < 24 then
          if i < 20 then
            if i < 18 then
              if i < 17 then
                5
              else
                17
            else
              if i < 19 then
                26
              else
                38
          else
            if i < 22 then
              if i < 21 then
                15
              else
                46
            else
              if i < 23 then
                29
              else
                48
        else
          if i < 28 then
            if i < 26 then
              if i < 25 then
                10
              else
                31
            else
              if i < 27 then
                35
              else
                54
          else
            if i < 30 then
              if i < 29 then
                21
              else
                50
            else
              if i < 31 then
                41
              else
                57
    else
      if i < 48 then
        if i < 40 then
          if i < 36 then
            if i < 34 then
              if i < 33 then
                63
              else
                6
            else
              if i < 35 then
                12
              else
                18
          else
            if i < 38 then
              if i < 37 then
                24
              else
                27
            else
              if i < 39 then
                33
              else
                39
        else
          if i < 44 then
            if i < 42 then
              if i < 41 then
                16
              else
                37
            else
              if i < 43 then
                45
              else
                47
          else
            if i < 46 then
              if i < 45 then
                30
              else
                53
            else
              if i < 47 then
                49
              else
                56
      else
        if i < 56 then
          if i < 52 then
            if i < 50 then
              if i < 49 then
                62
              else
                11
            else
              if i < 51 then
                23
              else
                32
          else
            if i < 54 then
              if i < 53 then
                36
              else
                44
            else
              if i < 55 then
                52
              else
                55
        else
          if i < 60 then
            if i < 58 then
              if i < 57 then
                61
              else
                22
            else
              if i < 59 then
                43
              else
                51
          else
            if i < 62 then
              if i < 61 then
                60
              else
                42
            else
              if i < 63 then
                59
              else
                58
  }

  /** Table lookup of an isolated bit: multiply by the De Bruijn constant modulo 2^64, keep the top 6 bits. */
  function DeBruijnLookup64(x: bv64): (r: bv64)
    ensures r < 64
  {
    DeBruijnTable64((x * DeBruijnConstant64) >> 58)
  }

  /** `v - (v >> 1)` after `v ^= v - 1`: the lowest set bit of v on its own. */
  function LowBit64(v: bv64): bv64 {
    var m := v ^ (v - 1);
    m - (m >> 1)
  }

  /** The shift-or cascade that sets every bit below the highest set bit. */
  function Smear64(v: bv64): bv64 {
    var v1 := v | (v >> 1);
    var v2 := v1 | (v1 >> 2);
    var v3 := v2 | (v2 >> 4);
    var v4 := v3 | (v3 >> 8);
    var v5 := v4 | (v4 >> 16);
    var v6 := v5 | (v5 >> 32);
    v6
  }

  function CountTrailingZeroC64(v: bv64): (r: bv64)
    ensures r < 64
  {
    DeBruijnLookup64(LowBit64(v))
  }

  function CountLeadingZeroC64(v: bv64): (r: bv64)
    ensures r < 64
  {
    var s := Smear64(v);
    63 - DeBruijnLookup64(s - (s >> 1))
  }

  function Log2i64(v: bv64): (r: bv64)
    ensures r < 64
  {
    63 - CountLeadingZeroC64(v)
  }

  /** Bit k is set and every bit below it is clear. */
  predicate IsLowestSetBit64(v: bv64, k: bv64) {
    k < 64 && v & (1 << k) != 0 && v & ((1 << k) - 1) == 0
  }

  /** Bit h is set and every bit above it is clear. */
  predicate IsHighestSetBit64(v: bv64, h: bv64) {
    h < 64 && v >> h == 1
  }

  lemma DeBruijnLookup64InvertsFrom0(k: bv64)
    requires k < 8
    ensures DeBruijnLookup64(1 << k) == k
  {
    if k == 0 { assert DeBruijnLookup64(0x0000_0000_0000_0001) == 0; }
    else if k == 1 { assert DeBruijnLookup64(0x0000_0000_0000_0002) == 1; }
    else if k == 2 { assert DeBruijnLookup64(0x0000_0000_0000_0004) == 2; }
    else if k == 3 { assert DeBruijnLookup64(0x0000_0000_0000_0008) == 3; }
    else if k == 4 { assert DeBruijnLookup64(0x0000_0000_0000_0010) == 4; }
    else if k == 5 { assert DeBruijnLookup64(0x0000_0000_0000_0020) == 5; }
    else if k == 6 { assert DeBruijnLookup64(0x0000_0000_0000_0040) == 6; }
    else if k == 7 { assert DeBruijnLookup64(0x0000_0000_0000_0080) == 7; }
  }

  lemma DeBruijnLookup64InvertsFrom8(k: bv64)
    requires 8 <= k < 16
    ensures DeBruijnLookup64(1 << k) == k
  {
    if k == 8 { assert DeBruijnLookup64(0x0000_0000_0000_0100) == 8; }
    else if k == 9 { assert DeBruijnLookup64(0x0000_0000_0000_0200) == 9; }
    else if k == 10 { assert DeBruijnLookup64(0x0000_0000_0000_0400) == 10; }
    else if k == 11 { assert DeBruijnLookup64(0x0000_0000_0000_0800) == 11; }
    else if k == 12 { assert DeBruijnLookup64(0x0000_0000_0000_1000) == 12; }
    else if k == 13 { assert DeBruijnLookup64(0x0000_0000_0000_2000) == 13; }
    else if k == 14 { assert DeBruijnLookup64(0x0000_0000_0000_4000) == 14; }
    else if k == 15 { assert DeBruijnLookup64(0x0000_0000_0000_8000) == 15; }
  }

  lemma DeBruijnLookup64InvertsFrom16(k: bv64)
    requires 16 <= k < 24
    ensures DeBruijnLookup64(1 << k) == k
  {
    if k == 16 { assert DeBruijnLookup64(0x0000_0000_0001_0000) == 16; }
    else if k == 17 { assert DeBruijnLookup64(0x0000_0000_0002_0000) == 17; }
    else if k == 18 { assert DeBruijnLookup64(0x0000_0000_0004_0000) == 18; }
    else if k == 19 { assert DeBruijnLookup64(0x0000_0000_0008_0000) == 19; }
    else if k == 20 { assert DeBruijnLookup64(0x0000_0000_0010_0000) == 20; }
    else if k == 21 { assert DeBruijnLookup64(0x0000_0000_0020_0000) == 21; }
    else if k == 22 { assert DeBruijnLookup64(0x0000_0000_0040_0000) == 22; }
    else if k == 23 { assert DeBruijnLookup64(0x0000_0000_0080_0000) == 23; }
  }

  lemma DeBruijnLookup64InvertsFrom24(k: bv64)
    requires 24 <= k < 32
    ensures DeBruijnLookup64(1 << k) == k
  {
    if k == 24 { assert DeBruijnLookup64(0x0000_0000_0100_0000) == 24; }
    else if k == 25 { assert DeBruijnLookup64(0x0000_0000_0200_0000) == 25; }
    else if k == 26 { assert DeBruijnLookup64(0x0000_0000_0400_0000) == 26; }
    else if k == 27 { assert DeBruijnLookup64(0x0000_0000_0800_0000) == 27; }
    else if k == 28 { assert DeBruijnLookup64(0x0000_0000_1000_0000) == 28; }
    else if k == 29 { assert DeBruijnLookup64(0x0000_0000_2000_0000) == 29; }
    else if k == 30 { assert DeBruijnLookup64(0x0000_0000_4000_0000) == 30; }
    else if k == 31 { assert DeBruijnLookup64(0x0000_0000_8000_0000) == 31; }
  }

  lemma DeBruijnLookup64InvertsFrom32(k: bv64)
    requires 32 <= k < 40
    ensures DeBruijnLookup64(1 << k) == k
  {
    if k == 32 { assert DeBruijnLookup64(0x0000_0001_0000_0000) == 32; }
    else if k == 33 { assert DeBruijnLookup64(0x0000_0002_0000_0000) == 33; }
    else if k == 34 { assert DeBruijnLookup64(0x0000_0004_0000_0000) == 34; }
    else if k == 35 { assert DeBruijnLookup64(0x0000_0008_0000_0000) == 35; }
    else if k == 36 { assert DeBruijnLookup64(0x0000_0010_0000_0000) == 36; }
    else if k == 37 { assert DeBruijnLookup64(0x0000_0020_0000_0000) == 37; }
    else if k == 38 { assert DeBruijnLookup64(0x0000_0040_0000_0000) == 38; }
    else if k == 39 { assert DeBruijnLookup64(0x0000_0080_0000_0000) == 39; }
  }

  lemma DeBruijnLookup64InvertsFrom40(k: bv64)
    requires 40 <= k < 48
    ensures DeBruijnLookup64(1 << k) == k
  {
    if k == 40 { assert DeBruijnLookup64(0x0000_0100_0000_0000) == 40; }
    else if k == 41 { assert DeBruijnLookup64(0x0000_0200_0000_0000) == 41; }
    else if k == 42 { assert DeBruijnLookup64(0x0000_0400_0000_0000) == 42; }
    else if k == 43 { assert DeBruijnLookup64(0x0000_0800_0000_0000) == 43; }
    else if k == 44 { assert DeBruijnLookup64(0x0000_1000_0000_0000) == 44; }
    else if k == 45 { assert DeBruijnLookup64(0x0000_2000_0000_0000) == 45; }
    else if k == 46 { assert DeBruijnLookup64(0x0000_4000_0000_0000) == 46; }
    else if k == 47 { assert DeBruijnLookup64(0x0000_8000_0000_0000) == 47; }
  }

  lemma DeBruijnLookup64InvertsFrom48(k: bv64)
    requires 48 <= k < 56
    ensures DeBruijnLookup64(1 << k) == k
  {
    if k == 48 { assert DeBruijnLookup64(0x0001_0000_0000_0000) == 48; }
    else if k == 49 { assert DeBruijnLookup64(0x0002_0000_0000_0000) == 49; }
    else if k == 50 { assert DeBruijnLookup64(0x0004_0000_0000_0000) == 50; }
    else if k == 51 { assert DeBruijnLookup64(0x0008_0000_0000_0000) == 51; }
    else if k == 52 { assert DeBruijnLookup64(0x0010_0000_0000_0000) == 52; }
    else if k == 53 { assert DeBruijnLookup64(0x0020_0000_0000_0000) == 53; }
    else if k == 54 { assert DeBruijnLookup64(0x0040_0000_0000_0000) == 54; }
    else if k == 55 { assert DeBruijnLookup64(0x0080_0000_0000_0000) == 55; }
  }

  lemma DeBruijnLookup64InvertsFrom56(k: bv64)
    requires 56 <= k < 64
    ensures DeBruijnLookup64(1 << k) == k
  {
    if k == 56 { assert DeBruijnLookup64(0x0100_0000_0000_0000) == 56; }
    else if k == 57 { assert DeBruijnLookup64(0x0200_0000_0000_0000) == 57; }
    else if k == 58 { assert DeBruijnLookup64(0x0400_0000_0000_0000) == 58; }
    else if k == 59 { assert DeBruijnLookup64(0x0800_0000_0000_0000) == 59; }
    else if k == 60 { assert DeBruijnLookup64(0x1000_0000_0000_0000) == 60; }
    else if k == 61 { assert DeBruijnLookup64(0x2000_0000_0000_0000) == 61; }
    else if k == 62 { assert DeBruijnLookup64(0x4000_0000_0000_0000) == 62; }
    else if k == 63 { assert DeBruijnLookup64(0x8000_0000_0000_0000) == 63; }
  }

  /** The table inverts the De Bruijn hash of every power of two. */
  lemma DeBruijnLookup64Inverts(k: bv64)
    requires k < 64
    ensures DeBruijnLookup64(1 << k) == k
  {
    if k < 8 { DeBruijnLookup64InvertsFrom0(k); }
    else if k < 16 { DeBruijnLookup64InvertsFrom8(k); }
    else if k < 24 { DeBruijnLookup64InvertsFrom16(k); }
    else if k < 32 { DeBruijnLookup64InvertsFrom24(k); }
    else if k < 40 { DeBruijnLookup64InvertsFrom32(k); }
    else if k < 48 { DeBruijnLookup64InvertsFrom40(k); }
    else if k < 56 { DeBruijnLookup64InvertsFrom48(k); }
    else { DeBruijnLookup64InvertsFrom56(k); }
  }

  lemma LowBit64Isolates(v: bv64, k: bv64)
    requires IsLowestSetBit64(v, k)
    ensures LowBit64(v) == 1 << k
  {
  }

  lemma Smear64TopFrom0(v: bv64, h: bv64)
    requires h < 8 && IsHighestSetBit64(v, h)
    ensures Smear64(v) - (Smear64(v) >> 1) == 1 << h
  {
    if h == 0 { assert Smear64(v) == 0x0000_0000_0000_0001; }
    else if h == 1 { assert Smear64(v) == 0x0000_0000_0000_0003; }
    else if h == 2 { assert Smear64(v) == 0x0000_0000_0000_0007; }
    else if h == 3 { assert Smear64(v) == 0x0000_0000_0000_000F; }
    else if h == 4 { assert Smear64(v) == 0x0000_0000_0000_001F; }
    else if h == 5 { assert Smear64(v) == 0x0000_0000_0000_003F; }
    else if h == 6 { assert Smear64(v) == 0x0000_0000_0000_007F; }
    else if h == 7 { assert Smear64(v) == 0x0000_0000_0000_00FF; }
  }

  lemma Smear64TopFrom8(v: bv64, h: bv64)
    requires 8 <= h < 16 && IsHighestSetBit64(v, h)
    ensures Smear64(v) - (Smear64(v) >> 1) == 1 << h
  {
    if h == 8 { assert Smear64(v) == 0x0000_0000_0000_01FF; }
    else if h == 9 { assert Smear64(v) == 0x0000_0000_0000_03FF; }
    else if h == 10 { assert Smear64(v) == 0x0000_0000_0000_07FF; }
    else if h == 11 { assert Smear64(v) == 0x0000_0000_0000_0FFF; }
    else if h == 12 { assert Smear64(v) == 0x0000_0000_0000_1FFF; }
    else if h == 13 { assert Smear64(v) == 0x0000_0000_0000_3FFF; }
    else if h == 14 { assert Smear64(v) == 0x0000_0000_0000_7FFF; }
    else if h == 15 { assert Smear64(v) == 0x0000_0000_0000_FFFF; }
  }

  lemma Smear64TopFrom16(v: bv64, h: bv64)
    requires 16 <= h < 24 && IsHighestSetBit64(v, h)
    ensures Smear64(v) - (Smear64(v) >> 1) == 1 << h
  {
    if h == 16 { assert Smear64(v) == 0x0000_0000_0001_FFFF; }
    else if h == 17 { assert Smear64(v) == 0x0000_0000_0003_FFFF; }
    else if h == 18 { assert Smear64(v) == 0x0000_0000_0007_FFFF; }
    else if h == 19 { assert Smear64(v) == 0x0000_0000_000F_FFFF; }
    else if h == 20 { assert Smear64(v) == 0x0000_0000_001F_FFFF; }
    else if h == 21 { assert Smear64(v) == 0x0000_0000_003F_FFFF; }
    else if h == 22 { assert Smear64(v) == 0x0000_0000_007F_FFFF; }
    else if h == 23 { assert Smear64(v) == 0x0000_0000_00FF_FFFF; }
  }

  lemma Smear64TopFrom24(v: bv64, h: bv64)
    requires 24 <= h < 32 && IsHighestSetBit64(v, h)
    ensures Smear64(v) - (Smear64(v) >> 1) == 1 << h
  {
    if h == 24 { assert Smear64(v) == 0x0000_0000_01FF_FFFF; }
    else if h == 25 { assert Smear64(v) == 0x0000_0000_03FF_FFFF; }
    else if h == 26 { assert Smear64(v) == 0x0000_0000_07FF_FFFF; }
    else if h == 27 { assert Smear64(v) == 0x0000_0000_0FFF_FFFF; }
    else if h == 28 { assert Smear64(v) == 0x0000_0000_1FFF_FFFF; }
    else if h == 29 { assert Smear64(v) == 0x0000_0000_3FFF_FFFF; }
    else if h == 30 { assert Smear64(v) == 0x0000_0000_7FFF_FFFF; }
    else if h == 31 { assert Smear64(v) == 0x0000_0000_FFFF_FFFF; }
  }

  lemma Smear64TopFrom32(v: bv64, h: bv64)
    requires 32 <= h < 40 && IsHighestSetBit64(v, h)
    ensures Smear64(v) - (Smear64(v) >> 1) == 1 << h
  {
    if h == 32 { assert Smear64(v) == 0x0000_0001_FFFF_FFFF; }
    else if h == 33 { assert Smear64(v) == 0x0000_0003_FFFF_FFFF; }
    else if h == 34 { assert Smear64(v) == 0x0000_0007_FFFF_FFFF; }
    else if h == 35 { assert Smear64(v) == 0x0000_000F_FFFF_FFFF; }
    else if h == 36 { assert Smear64(v) == 0x0000_001F_FFFF_FFFF; }
    else if h == 37 { assert Smear64(v) == 0x0000_003F_FFFF_FFFF; }
    else if h == 38 { assert Smear64(v) == 0x0000_007F_FFFF_FFFF; }
    else if h == 39 { assert Smear64(v) == 0x0000_00FF_FFFF_FFFF; }
  }

  lemma Smear64TopFrom40(v: bv64, h: bv64)
    requires 40 <= h < 48 && IsHighestSetBit64(v, h)
    ensures Smear64(v) - (Smear64(v) >> 1) == 1 << h
  {
    if h == 40 { assert Smear64(v) == 0x0000_01FF_FFFF_FFFF; }
    else if h == 41 { assert Smear64(v) == 0x0000_03FF_FFFF_FFFF; }
    else if h == 42 { assert Smear64(v) == 0x0000_07FF_FFFF_FFFF; }
    else if h == 43 { assert Smear64(v) == 0x0000_0FFF_FFFF_FFFF; }
    else if h == 44 { assert Smear64(v) == 0x0000_1FFF_FFFF_FFFF; }
    else if h == 45 { assert Smear64(v) == 0x0000_3FFF_FFFF_FFFF; }
    else if h == 46 { assert Smear64(v) == 0x0000_7FFF_FFFF_FFFF; }
    else if h == 47 { assert Smear64(v) == 0x0000_FFFF_FFFF_FFFF; }
  }

  lemma Smear64TopFrom48(v: bv64, h: bv64)
    requires 48 <= h < 56 && IsHighestSetBit64(v, h)
    ensures Smear64(v) - (Smear64(v) >> 1) == 1 << h
  {
    if h == 48 { assert Smear64(v) == 0x0001_FFFF_FFFF_FFFF; }
    else if h == 49 { assert Smear64(v) == 0x0003_FFFF_FFFF_FFFF; }
    else if h == 50 { assert Smear64(v) == 0x0007_FFFF_FFFF_FFFF; }
    else if h == 51 { assert Smear64(v) == 0x000F_FFFF_FFFF_FFFF; }
    else if h == 52 { assert Smear64(v) == 0x001F_FFFF_FFFF_FFFF; }
    else if h == 53 { assert Smear64(v) == 0x003F_FFFF_FFFF_FFFF; }
    else if h == 54 { assert Smear64(v) == 0x007F_FFFF_FFFF_FFFF; }
    else if h == 55 { assert Smear64(v) == 0x00FF_FFFF_FFFF_FFFF; }
  }

  lemma Smear64TopFrom56(v: bv64, h: bv64)
    requires 56 <= h < 64 && IsHighestSetBit64(v, h)
    ensures Smear64(v) - (Smear64(v) >> 1) == 1 << h
  {
    if h == 56 { assert Smear64(v) == 0x01FF_FFFF_FFFF_FFFF; }
    else if h == 57 { assert Smear64(v) == 0x03FF_FFFF_FFFF_FFFF; }
    else if h == 58 { assert Smear64(v) == 0x07FF_FFFF_FFFF_FFFF; }
    else if h == 59 { assert Smear64(v) == 0x0FFF_FFFF_FFFF_FFFF; }
    else if h == 60 { assert Smear64(v) == 0x1FFF_FFFF_FFFF_FFFF; }
    else if h == 61 { assert Smear64(v) == 0x3FFF_FFFF_FFFF_FFFF; }
    else if h == 62 { assert Smear64(v) == 0x7FFF_FFFF_FFFF_FFFF; }
    else if h == 63 { assert Smear64(v) == 0xFFFF_FFFF_FFFF_FFFF; }
  }

  /** Smearing leaves exactly the bits at and below the highest set bit. */
  lemma Smear64Top(v: bv64, h: bv64)
    requires IsHighestSetBit64(v, h)
    ensures Smear64(v) - (Smear64(v) >> 1) == 1 << h
  {
    if h < 8 { Smear64TopFrom0(v, h); }
    else if h < 16 { Smear64TopFrom8(v, h); }
    else if h < 24 { Smear64TopFrom16(v, h); }
    else if h < 32 { Smear64TopFrom24(v, h); }
    else if h < 40 { Smear64TopFrom32(v, h); }
    else if h < 48 { Smear64TopFrom40(v, h); }
    else if h < 56 { Smear64TopFrom48(v, h); }
    else { Smear64TopFrom56(v, h); }
  }

  /** Every non-zero word has a lowest set bit. */
  lemma LowestSetBit64Exists(v: bv64) returns (k: bv64)
    requires v != 0
    ensures IsLowestSetBit64(v, k)
  {
    if v & 0x0000_0000_0000_0001 != 0 { k := 0; }
    else if v & 0x0000_0000_0000_0002 != 0 { k := 1; }
    else if v & 0x0000_0000_0000_0004 != 0 { k := 2; }
    else if v & 0x0000_0000_0000_0008 != 0 { k := 3; }
    else if v & 0x0000_0000_0000_0010 != 0 { k := 4; }
    else if v & 0x0000_0000_0000_0020 != 0 { k := 5; }
    else if v & 0x0000_0000_0000_0040 != 0 { k := 6; }
    else if v & 0x0000_0000_0000_0080 != 0 { k := 7; }
    else if v & 0x0000_0000_0000_0100 != 0 { k := 8; }
    else if v & 0x0000_0000_0000_0200 != 0 { k := 9; }
    else if v & 0x0000_0000_0000_0400 != 0 { k := 10; }
    else if v & 0x0000_0000_0000_0800 != 0 { k := 11; }
    else if v & 0x0000_0000_0000_1000 != 0 { k := 12; }
    else if v & 0x0000_0000_0000_2000 != 0 { k := 13; }
    else if v & 0x0000_0000_0000_4000 != 0 { k := 14; }
    else if v & 0x0000_0000_0000_8000 != 0 { k := 15; }
    else if v & 0x0000_0000_0001_0000 != 0 { k := 16; }
    else if v & 0x0000_0000_0002_0000 != 0 { k := 17; }
    else if v & 0x0000_0000_0004_0000 != 0 { k := 18; }
    else if v & 0x0000_0000_0008_0000 != 0 { k := 19; }
    else if v & 0x0000_0000_0010_0000 != 0 { k := 20; }
    else if v & 0x0000_0000_0020_0000 != 0 { k := 21; }
    else if v & 0x0000_0000_0040_0000 != 0 { k := 22; }
    else if v & 0x0000_0000_0080_0000 != 0 { k := 23; }
    else if v & 0x0000_0000_0100_0000 != 0 { k := 24; }
    else if v & 0x0000_0000_0200_0000 != 0 { k := 25; }
    else if v & 0x0000_0000_0400_0000 != 0 { k := 26; }
    else if v & 0x0000_0000_0800_0000 != 0 { k := 27; }
    else if v & 0x0000_0000_1000_0000 != 0 { k := 28; }
    else if v & 0x0000_0000_2000_0000 != 0 { k := 29; }
    else if v & 0x0000_0000_4000_0000 != 0 { k := 30; }
    else if v & 0x0000_0000_8000_0000 != 0 { k := 31; }
    else if v & 0x0000_0001_0000_0000 != 0 { k := 32; }
    else if v & 0x0000_0002_0000_0000 != 0 { k := 33; }
    else if v & 0x0000_0004_0000_0000 != 0 { k := 34; }
    else if v & 0x0000_0008_0000_0000 != 0 { k := 35; }
    else if v & 0x0000_0010_0000_0000 != 0 { k := 36; }
    else if v & 0x0000_0020_0000_0000 != 0 { k := 37; }
    else if v & 0x0000_0040_0000_0000 != 0 { k := 38; }
    else if v & 0x0000_0080_0000_0000 != 0 { k := 39; }
    else if v & 0x0000_0100_0000_0000 != 0 { k := 40; }
    else if v & 0x0000_0200_0000_0000 != 0 { k := 41; }
    else if v & 0x0000_0400_0000_0000 != 0 { k := 42; }
    else if v & 0x0000_0800_0000_0000 != 0 { k := 43; }
    else if v & 0x0000_1000_0000_0000 != 0 { k := 44; }
    else if v & 0x0000_2000_0000_0000 != 0 { k := 45; }
    else if v & 0x0000_4000_0000_0000 != 0 { k := 46; }
    else if v & 0x0000_8000_0000_0000 != 0 { k := 47; }
    else if v & 0x0001_0000_0000_0000 != 0 { k := 48; }
    else if v & 0x0002_0000_0000_0000 != 0 { k := 49; }
    else if v & 0x0004_0000_0000_0000 != 0 { k := 50; }
    else if v & 0x0008_0000_0000_0000 != 0 { k := 51; }
    else if v & 0x0010_0000_0000_0000 != 0 { k := 52; }
    else if v & 0x0020_0000_0000_0000 != 0 { k := 53; }
    else if v & 0x0040_0000_0000_0000 != 0 { k := 54; }
    else if v & 0x0080_0000_0000_0000 != 0 { k := 55; }
    else if v & 0x0100_0000_0000_0000 != 0 { k := 56; }
    else if v & 0x0200_0000_0000_0000 != 0 { k := 57; }
    else if v & 0x0400_0000_0000_0000 != 0 { k := 58; }
    else if v & 0x0800_0000_0000_0000 != 0 { k := 59; }
    else if v & 0x1000_0000_0000_0000 != 0 { k := 60; }
    else if v & 0x2000_0000_0000_0000 != 0 { k := 61; }
    else if v & 0x4000_0000_0000_0000 != 0 { k := 62; }
    else if v & 0x8000_0000_0000_0000 != 0 { k := 63; }
    else { assert false; }
  }

  /** Every non-zero word has a highest set bit. */
  lemma HighestSetBit64Exists(v: bv64) returns (h: bv64)
    requires v != 0
    ensures IsHighestSetBit64(v, h)
  {
    if v >> 63 != 0 { h := 63; }
    else if v >> 62 != 0 { h := 62; }
    else if v >> 61 != 0 { h := 61; }
    else if v >> 60 != 0 { h := 60; }
    else if v >> 59 != 0 { h := 59; }
    else if v >> 58 != 0 { h := 58; }
    else if v >> 57 != 0 { h := 57; }
    else if v >> 56 != 0 { h := 56; }
    else if v >> 55 != 0 { h := 55; }
    else if v >> 54 != 0 { h := 54; }
    else if v >> 53 != 0 { h := 53; }
    else if v >> 52 != 0 { h := 52; }
    else if v >> 51 != 0 { h := 51; }
    else if v >> 50 != 0 { h := 50; }
    else if v >> 49 != 0 { h := 49; }
    else if v >> 48 != 0 { h := 48; }
    else if v >> 47 != 0 { h := 47; }
    else if v >> 46 != 0 { h := 46; }
    else if v >> 45 != 0 { h := 45; }
    else if v >> 44 != 0 { h := 44; }
    else if v >> 43 != 0 { h := 43; }
    else if v >> 42 != 0 { h := 42; }
    else if v >> 41 != 0 { h := 41; }
    else if v >> 40 != 0 { h := 40; }
    else if v >> 39 != 0 { h := 39; }
    else if v >> 38 != 0 { h := 38; }
    else if v >> 37 != 0 { h := 37; }
    else if v >> 36 != 0 { h := 36; }
    else if v >> 35 != 0 { h := 35; }
    else if v >> 34 != 0 { h := 34; }
    else if v >> 33 != 0 { h := 33; }
    else if v >> 32 != 0 { h := 32; }
    else if v >> 31 != 0 { h := 31; }
    else if v >> 30 != 0 { h := 30; }
    else if v >> 29 != 0 { h := 29; }
    else if v >> 28 != 0 { h := 28; }
    else if v >> 27 != 0 { h := 27; }
    else if v >> 26 != 0 { h := 26; }
    else if v >> 25 != 0 { h := 25; }
    else if v >> 24 != 0 { h := 24; }
    else if v >> 23 != 0 { h := 23; }
    else if v >> 22 != 0 { h := 22; }
    else if v >> 21 != 0 { h := 21; }
    else if v >> 20 != 0 { h := 20; }
    else if v >> 19 != 0 { h := 19; }
    else if v >> 18 != 0 { h := 18; }
    else if v >> 17 != 0 { h := 17; }
    else if v >> 16 != 0 { h := 16; }
    else if v >> 15 != 0 { h := 15; }
    else if v >> 14 != 0 { h := 14; }
    else if v >> 13 != 0 { h := 13; }
    else if v >> 12 != 0 { h := 12; }
    else if v >> 11 != 0 { h := 11; }
    else if v >> 10 != 0 { h := 10; }
    else if v >> 9 != 0 { h := 9; }
    else if v >> 8 != 0 { h := 8; }
    else if v >> 7 != 0 { h := 7; }
    else if v >> 6 != 0 { h := 6; }
    else if v >> 5 != 0 { h := 5; }
    else if v >> 4 != 0 { h := 4; }
    else if v >> 3 != 0 { h := 3; }
    else if v >> 2 != 0 { h := 2; }
    else if v >> 1 != 0 { h := 1; }
    else if v >> 0 != 0 { h := 0; }
    else { assert false; }
  }

  /** For v != 0 the table branch of CountTrailingZeroC yields the index of the lowest set bit. */
  lemma CountTrailingZeroC64Correct(v: bv64)
    requires v != 0
    ensures IsLowestSetBit64(v, CountTrailingZeroC64(v))
  {
    var k := LowestSetBit64Exists(v);
    LowBit64Isolates(v, k);
    DeBruijnLookup64Inverts(k);
  }

  /** Exactly c bits lie above the highest set bit of v. */
  predicate HasLeadingZeros64(v: bv64, c: bv64) {
    c < 64 && IsHighestSetBit64(v, 63 - c)
  }

  /** For v != 0 CountLeadingZeroC yields the number of clear bits above the highest set bit. */
  lemma CountLeadingZeroC64Correct(v: bv64)
    requires v != 0
    ensures HasLeadingZeros64(v, CountLeadingZeroC64(v))
  {
    var h := HighestSetBit64Exists(v);
    Smear64Top(v, h);
    DeBruijnLookup64Inverts(h);
  }

  /** For v != 0, log2i(v) = floor(log2 v): 2^r <= v < 2^(r+1). */
  lemma Log2i64Correct(v: bv64)
    requires v != 0
    ensures (1 as bv64) << Log2i64(v) <= v
    ensures Log2i64(v) < 63 ==> v < (1 as bv64) << (Log2i64(v) + 1)
  {
    CountLeadingZeroC64Correct(v);
    Log2Bounds64(v, Log2i64(v));
  }

  lemma Log2Bounds64(v: bv64, h: bv64)
    requires IsHighestSetBit64(v, h)
    ensures (1 as bv64) << h <= v
    ensures h < 63 ==> v < (1 as bv64) << (h + 1)
  {
  }

  /** Zero has no set bit; the table branch then returns 63 for both counts. */
  lemma CountZeroC64OfZero()
    ensures CountTrailingZeroC64(0) == 63 && CountLeadingZeroC64(0) == 63
  {
  }

  // ---------------------------------------------------------------- nextPowerOf2

  /** r has exactly one bit set. */
  predicate IsPowerOfTwoU32(r: bv32) {
    r != 0 && r & (r - 1) == 0
  }

  predicate IsPowerOfTwoU64(r: bv64) {
    r != 0 && r & (r - 1) == 0
  }

  /** r is the least power of two that is at least v. */
  predicate IsNextPowerOfTwoU32(v: bv32, r: bv32) {
    IsPowerOfTwoU32(r) && v <= r && r >> 1 < v
  }

  predicate IsNextPowerOfTwoU64(v: bv64, r: bv64) {
    IsPowerOfTwoU64(r) && v <= r && r >> 1 < v
  }

  /**
   * nextPowerOf2(u32): 1 for 1, otherwise `1u << (32 - clz(v - 1))`.
   * For v = 0 the shift is by 32, undefined in C++; here it yields 0.
   */
  function NextPowerOf2U32(v: bv32): bv32 {
    if v == 1 then 1 else (1 as bv32) << (32 - CountLeadingZeroC32(v - 1))
  }

  /** nextPowerOf2(u64): 1 for 1, otherwise `1ull << (64 - clz(v - 1))`. */
  function NextPowerOf2U64(v: bv64): bv64 {
    if v == 1 then 1 else (1 as bv64) << (64 - CountLeadingZeroC64(v - 1))
  }

  /** 2^(w - c) is the least power of two at least v. */
  predicate PowerFits32(v: bv32, c: bv32)
    requires c < 32
  {
    IsNextPowerOfTwoU32(v, (1 as bv32) << (32 - c))
  }

  /** With c leading zeros in v - 1, 2^(32 - c) is the next power of two. */
  lemma PowerAboveHighestBit32(v: bv32, c: bv32)
    requires 2 <= v <= 0x8000_0000 && HasLeadingZeros32(v - 1, c)
    ensures PowerFits32(v, c)
  {
    PowerAtHighestBit32(v, 31 - c);
    assert 32 - c == (31 - c) + 1;
  }

  /** With h the highest set bit of v - 1, 2^(h+1) is the next power of two. */
  lemma PowerAtHighestBit32(v: bv32, h: bv32)
    requires 2 <= v <= 0x8000_0000 && IsHighestSetBit32(v - 1, h)
    ensures h < 31 && IsNextPowerOfTwoU32(v, (1 as bv32) << (h + 1))
  {
    assert h < 31;
    ShiftedOneIsPowerOfTwo32(h + 1);
    ShiftedOneHalves32(h);
    PowerAboveHighestBitBounds32(v, h);
  }

  lemma ShiftedOneIsPowerOfTwo32(k: bv32)
    requires k < 32
    ensures IsPowerOfTwoU32((1 as bv32) << k)
  {
  }

  lemma ShiftedOneHalves32(h: bv32)
    requires h < 31
    ensures ((1 as bv32) << (h + 1)) >> 1 == (1 as bv32) << h
  {
  }

  /** 2^h < v <= 2^(h+1) when h is the highest set bit of v - 1. */
  lemma PowerAboveHighestBitBounds32(v: bv32, h: bv32)
    requires 2 <= v && h < 31 && IsHighestSetBit32(v - 1, h)
    ensures ((1 as bv32) << h) < v <= ((1 as bv32) << (h + 1))
  {
  }

  lemma NextPowerOf2U32Unfold(v: bv32)
    requires v != 1
    ensures NextPowerOf2U32(v) == (1 as bv32) << (32 - CountLeadingZeroC32(v - 1))
  {
  }

  lemma NextPowerOf2U32Above(v: bv32)
    requires 2 <= v <= 0x8000_0000
    ensures PowerFits32(v, CountLeadingZeroC32(v - 1))
  {
    CountLeadingZeroC32Correct(v - 1);
    PowerAboveHighestBit32(v, CountLeadingZeroC32(v - 1));
  }

  /** For 1 <= v <= 2^31, nextPowerOf2 is the least power of two that is at least v. */
  lemma NextPowerOf2U32Correct(v: bv32)
    requires 1 <= v <= 0x8000_0000
    ensures IsNextPowerOfTwoU32(v, NextPowerOf2U32(v))
  {
    if v == 1 {
      assert NextPowerOf2U32(1) == 1;
    } else {
      NextPowerOf2U32Above(v);
      NextPowerOf2U32Unfold(v);
    }
  }

  /** 2^(w - c) is the least power of two at least v. */
  predicate PowerFits64(v: bv64, c: bv64)
    requires c < 64
  {
    IsNextPowerOfTwoU64(v, (1 as bv64) << (64 - c))
  }

  /** With c leading zeros in v - 1, 2^(64 - c) is the next power of two. */
  lemma PowerAboveHighestBit64(v: bv64, c: bv64)
    requires 2 <= v <= 0x8000_0000_0000_0000 && HasLeadingZeros64(v - 1, c)
    ensures PowerFits64(v, c)
  {
    PowerAtHighestBit64(v, 63 - c);
    assert 64 - c == (63 - c) + 1;
  }

  /** With h the highest set bit of v - 1, 2^(h+1) is the next power of two. */
  lemma PowerAtHighestBit64(v: bv64, h: bv64)
    requires 2 <= v <= 0x8000_0000_0000_0000 && IsHighestSetBit64(v - 1, h)
    ensures h < 63 && IsNextPowerOfTwoU64(v, (1 as bv64) << (h + 1))
  {
    assert h < 63;
    ShiftedOneIsPowerOfTwo64(h + 1);
    ShiftedOneHalves64(h);
    PowerAboveHighestBitBounds64(v, h);
  }

  lemma ShiftedOneIsPowerOfTwo64(k: bv64)
    requires k < 64
    ensures IsPowerOfTwoU64((1 as bv64) << k)
  {
  }

  lemma ShiftedOneHalves64(h: bv64)
    requires h < 63
    ensures ((1 as bv64) << (h + 1)) >> 1 == (1 as bv64) << h
  {
  }

  /** 2^h < v <= 2^(h+1) when h is the highest set bit of v - 1. */
  lemma PowerAboveHighestBitBounds64(v: bv64, h: bv64)
    requires 2 <= v && h < 63 && IsHighestSetBit64(v - 1, h)
    ensures ((1 as bv64) << h) < v <= ((1 as bv64) << (h + 1))
  {
  }

  lemma NextPowerOf2U64Unfold(v: bv64)
    requires v != 1
    ensures NextPowerOf2U64(v) == (1 as bv64) << (64 - CountLeadingZeroC64(v - 1))
  {
  }

  lemma NextPowerOf2U64Above(v: bv64)
    requires 2 <= v <= 0x8000_0000_0000_0000
    ensures PowerFits64(v, CountLeadingZeroC64(v - 1))
  {
    CountLeadingZeroC64Correct(v - 1);
    PowerAboveHighestBit64(v, CountLeadingZeroC64(v - 1));
  }

  /** For 1 <= v <= 2^63, nextPowerOf2 is the least power of two that is at least v. */
  lemma NextPowerOf2U64Correct(v: bv64)
    requires 1 <= v <= 0x8000_0000_0000_0000
    ensures IsNextPowerOfTwoU64(v, NextPowerOf2U64(v))
  {
    if v == 1 {
      assert NextPowerOf2U64(1) == 1;
    } else {
      NextPowerOf2U64Above(v);
      NextPowerOf2U64Unfold(v);
    }
  }

  /**
   * nextPowerOf2(u8) and nextPowerOf2(u16) as written: `v - 1u` is an
   * unsigned int, so the 32-bit CountLeadingZeroC is called and
   * `8u - clz` (resp. `16u - clz`) wraps around. A shift by 32 or more is
   * undefined in C++; the model reports it as None.
   */
  function NextPowerOf2U8AsWritten(v: bv8): Option<bv32> {
    if v == 1 then Some(1)
    else
      var amount := 8 - CountLeadingZeroC32((v as bv32) - 1);
      if amount >= 32 then None else Some(((1 as bv32) << amount) & 0xFF)
  }

  function NextPowerOf2U16AsWritten(v: bv16): Option<bv32> {
    if v == 1 then Some(1)
    else
      var amount := 16 - CountLeadingZeroC32((v as bv32) - 1);
      if amount >= 32 then None else Some(((1 as bv32) << amount) & 0xFFFF)
  }

  /** A value below 2^n has at least 32 - n leading zeros. */
  lemma LeadingZerosBound32(x: bv32, c: bv32, n: bv32)
    requires 1 <= n < 32 && x < (1 as bv32) << n && HasLeadingZeros32(x, c)
    ensures 32 - n <= c
  {
  }

  /** Every v from 2 to 255 makes the u8 overload shift by at least 32. */
  lemma NextPowerOf2U8AsWrittenUndefined(v: bv8)
    requires v >= 2
    ensures NextPowerOf2U8AsWritten(v) == None
  {
    CountLeadingZeroC32Correct((v as bv32) - 1);
    LeadingZerosBound32((v as bv32) - 1, CountLeadingZeroC32((v as bv32) - 1), 8);
  }

  /** Every v from 2 to 2^15 makes the u16 overload shift by at least 32. */
  lemma NextPowerOf2U16AsWrittenUndefined(v: bv16)
    requires 2 <= v <= 0x8000
    ensures NextPowerOf2U16AsWritten(v) == None
  {
    CountLeadingZeroC32Correct((v as bv32) - 1);
    LeadingZerosBound32((v as bv32) - 1, CountLeadingZeroC32((v as bv32) - 1), 15);
  }

  /** The evidently intended u8 overload: the 8-bit count on the 8-bit `v - 1`. */
  function NextPowerOf2U8(v: bv8): bv32 {
    if v == 1 then 1 else ((1 as bv32) << (8 - (CountLeadingZeroC8(v - 1) as bv32))) & 0xFF
  }

  /** The evidently intended u16 overload. */
  function NextPowerOf2U16(v: bv16): bv32 {
    if v == 1 then 1 else ((1 as bv32) << (16 - (CountLeadingZeroC16(v - 1) as bv32))) & 0xFFFF
  }

  /** With c leading zeros in v - 1, 2^(8 - c) is the next power of two. */
  lemma PowerAboveHighestBit8(v: bv8, c: bv8)
    requires 2 <= v <= 0x80 && HasLeadingZeros8(v - 1, c)
    ensures IsNextPowerOfTwoU32(v as bv32, ((1 as bv32) << (8 - (c as bv32))) & 0xFF)
  {
  }

  lemma NextPowerOf2U8Unfold(v: bv8)
    requires v != 1
    ensures NextPowerOf2U8(v) == ((1 as bv32) << (8 - (CountLeadingZeroC8(v - 1) as bv32))) & 0xFF
  {
  }

  lemma NextPowerOf2U8Above(v: bv8)
    requires 2 <= v <= 0x80
    ensures IsNextPowerOfTwoU32(v as bv32, NextPowerOf2U8(v))
  {
    assert v != 1 && v - 1 != 0;
    NextPowerOf2U8Unfold(v);
    CountLeadingZeroC8Correct(v - 1);
    PowerAboveHighestBit8(v, CountLeadingZeroC8(v - 1));
  }

  /** For 1 <= v <= 0x80 the corrected u8 overload is the least power of two that is at least v. */
  lemma NextPowerOf2U8Correct(v: bv8)
    requires 1 <= v <= 0x80
    ensures IsNextPowerOfTwoU32(v as bv32, NextPowerOf2U8(v))
  {
    if v == 1 {
      assert NextPowerOf2U8(1) == 1;
    } else {
      NextPowerOf2U8Above(v);
    }
  }

  /** With c leading zeros in v - 1, 2^(16 - c) is the next power of two. */
  lemma PowerAboveHighestBit16(v: bv16, c: bv16)
    requires 2 <= v <= 0x8000 && HasLeadingZeros16(v - 1, c)
    ensures IsNextPowerOfTwoU32(v as bv32, ((1 as bv32) << (16 - (c as bv32))) & 0xFFFF)
  {
  }

  lemma NextPowerOf2U16Unfold(v: bv16)
    requires v != 1
    ensures NextPowerOf2U16(v) == ((1 as bv32) << (16 - (CountLeadingZeroC16(v - 1) as bv32))) & 0xFFFF
  {
  }

  lemma NextPowerOf2U16Above(v: bv16)
    requires 2 <= v <= 0x8000
    ensures IsNextPowerOfTwoU32(v as bv32, NextPowerOf2U16(v))
  {
    assert v != 1 && v - 1 != 0;
    NextPowerOf2U16Unfold(v);
    CountLeadingZeroC16Correct(v - 1);
    PowerAboveHighestBit16(v, CountLeadingZeroC16(v - 1));
  }

  /** For 1 <= v <= 0x8000 the corrected u16 overload is the least power of two that is at least v. */
  lemma NextPowerOf2U16Correct(v: bv16)
    requires 1 <= v <= 0x8000
    ensures IsNextPowerOfTwoU32(v as bv32, NextPowerOf2U16(v))
  {
    if v == 1 {
      assert NextPowerOf2U16(1) == 1;
    } else {
      NextPowerOf2U16Above(v);
    }
  }
}
