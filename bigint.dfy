/*
 * The BigInt class of Dragon4.cpp: an unsigned integer of up to 35 blocks of
 * 32 bits, least significant block first, with m_Length blocks in use.
 *
 * Each BigInt owns its block array; `blocks` is that array and `length` is
 * m_Length. A BigInt is normalized when its top block in use is not zero, so
 * that zero has length 0.
 */
module Dragon4 {

  import TUMaths

  const BlockBase: nat := 0x1_0000_0000

  /** A u32 block. */
  type Block = x: int | 0 <= x < 0x1_0000_0000

  /** BIG_INT_MAX_BLOCKS. */
  const MaxBlocks: nat := 35

  // ---------------------------------------------------------------- the value of a block sequence

  /** BlockBase to the k. */
  function BlockPower(k: nat): (r: nat)
    ensures r >= 1
  {
    if k == 0 then 1 else BlockBase * BlockPower(k - 1)
  }

  /** The number the blocks stand for, least significant block first. */
  function ValueOf(s: seq<Block>): nat {
    if s == [] then 0 else ValueOf(s[..|s| - 1]) + s[|s| - 1] * BlockPower(|s| - 1)
  }

  /** No zero block on top: zero is the empty sequence. */
  predicate IsNormalized(s: seq<Block>) {
    |s| == 0 || s[|s| - 1] != 0
  }

  /** -1, 0 or 1 as x is negative, zero or positive. */
  function Sign(x: int): (r: int)
    ensures r == -1 || r == 0 || r == 1
  {
    if x < 0 then -1 else if x > 0 then 1 else 0
  }

  lemma {:induction false} PowerStep(k: nat)
    ensures BlockPower(k + 1) == BlockBase * BlockPower(k)
  {
  }

  lemma {:induction false} PowerAdd(j: nat, k: nat)
    ensures BlockPower(j + k) == BlockPower(j) * BlockPower(k)
    decreases k
  {
    if k > 0 {
      PowerAdd(j, k - 1);
      calc {
        BlockPower(j + k);
        BlockBase * BlockPower(j + k - 1);
        BlockBase * (BlockPower(j) * BlockPower(k - 1));
        BlockPower(j) * (BlockBase * BlockPower(k - 1));
      }
    }
  }

  lemma {:induction false} PowerMono(j: nat, k: nat)
    requires j <= k
    ensures BlockPower(j) <= BlockPower(k)
    decreases k
  {
    if j < k {
      PowerMono(j, k - 1);
    }
  }

  /** One block appended on top adds it times BlockBase to the old length. */
  lemma {:induction false} ValueSnoc(s: seq<Block>, i: nat)
    requires i < |s|
    ensures ValueOf(s[..i + 1]) == ValueOf(s[..i]) + s[i] * BlockPower(i)
  {
    assert s[..i + 1][..i] == s[..i];
  }

  /** k blocks stand for less than BlockBase to the k. */
  lemma {:induction false} ValueBound(s: seq<Block>)
    ensures ValueOf(s) < BlockPower(|s|)
    decreases |s|
  {
    if s != [] {
      var n := |s| - 1;
      ValueBound(s[..n]);
      TopBlockBound(ValueOf(s[..n]), s[n], BlockPower(n));
    }
  }

  /** A value below p plus a block times p is below BlockBase times p. */
  lemma {:induction false} TopBlockBound(low: nat, top: Block, p: nat)
    requires low < p
    ensures low + top * p < BlockBase * p
  {
    assert top * p <= (BlockBase - 1) * p by {
      assert (BlockBase - 1) * p - top * p == (BlockBase - 1 - top) * p;
    }
  }

  /** A top block that is not zero puts the value at or above BlockBase to the length less one. */
  lemma {:induction false} NormalizedLower(s: seq<Block>)
    requires |s| > 0
    ensures s[|s| - 1] != 0 <==> ValueOf(s) >= BlockPower(|s| - 1)
  {
    var n := |s| - 1;
    ValueBound(s[..n]);
    if s[n] != 0 {
      assert s[n] * BlockPower(n) >= BlockPower(n) by {
        TUMaths.MulAtLeast(BlockPower(n), s[n]);
      }
    }
  }

  /** A normalized sequence stands for a number below BlockBase to its length and, unless empty, not below the length less one. */
  lemma {:induction false} NormalizedRange(s: seq<Block>)
    requires IsNormalized(s)
    ensures ValueOf(s) < BlockPower(|s|)
    ensures |s| > 0 ==> BlockPower(|s| - 1) <= ValueOf(s)
    ensures ValueOf(s) == 0 <==> |s| == 0
  {
    ValueBound(s);
    if |s| > 0 {
      NormalizedLower(s);
    }
  }

  /** The blocks below k and the blocks from k on. */
  lemma {:induction false} ValueSplit(s: seq<Block>, k: nat)
    requires k <= |s|
    ensures ValueOf(s) == ValueOf(s[..k]) + BlockPower(k) * ValueOf(s[k..])
    decreases |s|
  {
    if k == |s| {
      assert s[..k] == s;
      assert s[k..] == [];
    } else {
      var n := |s| - 1;
      var init := s[..n];
      ValueSplit(init, k);
      assert init[..k] == s[..k];
      var high := s[k..];
      assert high[..|high| - 1] == init[k..];
      assert high[|high| - 1] == s[n];
      PowerAdd(k, n - k);
      var p, q := BlockPower(k), BlockPower(n - k);
      var lowHigh := ValueOf(init[k..]);
      assert ValueOf(high) == lowHigh + s[n] * q;
      assert p * ValueOf(high) == p * lowHigh + s[n] * (p * q) by {
        Distribute(p, lowHigh, s[n], q);
      }
    }
  }

  /** p (x + t q) == p x + t (p q) */
  lemma {:induction false} Distribute(p: int, x: int, t: int, q: int)
    ensures p * (x + t * q) == p * x + t * (p * q)
  {
    assert p * (x + t * q) == p * x + p * (t * q);
    assert p * (t * q) == t * (p * q);
  }

  /** Sequences of the same length that agree above i and differ at i compare as their blocks at i do. */
  lemma {:induction false} CompareAt(a: seq<Block>, b: seq<Block>, i: nat)
    requires |a| == |b| && i < |a| && a[i + 1..] == b[i + 1..] && a[i] > b[i]
    ensures ValueOf(a) > ValueOf(b)
  {
    ValueSplit(a, i + 1);
    ValueSplit(b, i + 1);
    ValueSnoc(a, i);
    ValueSnoc(b, i);
    ValueBound(b[..i]);
    BlockDominates(ValueOf(a[..i]), ValueOf(b[..i]), a[i], b[i], BlockPower(i));
  }

  /** A larger block at p outweighs anything below p. */
  lemma {:induction false} BlockDominates(lowA: nat, lowB: nat, x: nat, y: nat, p: nat)
    requires lowB < p && x > y
    ensures lowA + x * p > lowB + y * p
  {
    assert x * p - y * p == (x - y) * p;
    TUMaths.MulAtLeast(p, x - y);
  }

  /** Normalized sequences of different lengths: the longer stands for the larger number. */
  /**
   * The outcome of a top-down scan that stopped at i (-1 when every block
   * matched): the first differing block decides the comparison.
   */
  lemma {:induction false} ScanResult(a: seq<Block>, b: seq<Block>, i: int)
    requires |a| == |b| && -1 <= i < |a| && a[i + 1..] == b[i + 1..]
    requires i >= 0 ==> a[i] != b[i]
    ensures i < 0 ==> ValueOf(a) == ValueOf(b)
    ensures i >= 0 && a[i] > b[i] ==> ValueOf(a) > ValueOf(b)
    ensures i >= 0 && a[i] < b[i] ==> ValueOf(a) < ValueOf(b)
  {
    if i < 0 {
      assert a == a[0..] == b[0..] == b;
    } else if a[i] > b[i] {
      CompareAt(a, b, i);
    } else {
      CompareAt(b, a, i);
    }
  }

  lemma {:induction false} LongerIsLarger(a: seq<Block>, b: seq<Block>)
    requires IsNormalized(a) && IsNormalized(b) && |a| > |b|
    ensures ValueOf(a) > ValueOf(b)
  {
    NormalizedRange(a);
    NormalizedRange(b);
    PowerMono(|b|, |a| - 1);
  }

  // ---------------------------------------------------------------- arithmetic steps of the block loops

  /** A sum split into the block written and the carry out. */
  lemma {:induction false} SplitSum(sum: nat)
    ensures sum == (sum / BlockBase) * BlockBase + sum % BlockBase
    ensures 0 <= sum % BlockBase < BlockBase && 0 <= sum / BlockBase
  {
  }

  /**
   * One turn of a carry loop: r + c p stood for `target`; the turn adds
   * `add` at p, writes block b and carries c2 to the next block.
   */
  lemma {:induction false} CarryStep(r: nat, b: nat, c: nat, c2: nat, sum: nat, p: nat, target: nat, add: nat)
    requires r + c * p == target
    requires sum == c2 * BlockBase + b && sum == c + add
    ensures (r + b * p) + c2 * (BlockBase * p) == target + add * p
  {
    assert c2 * (BlockBase * p) == (c2 * BlockBase) * p;
    assert (r + b * p) + (c2 * BlockBase) * p == r + sum * p;
    assert sum * p == c * p + add * p;
  }

  /** A block times a block plus at most two more blocks' worth carries less than BlockBase. */
  lemma {:induction false} ProductCarry(x: Block, y: Block, c: nat)
    requires c <= 2 * (BlockBase - 1)
    ensures (x * y + c) / BlockBase < BlockBase
  {
    MulMono(x, BlockBase - 1, y);
    MulMono(y, BlockBase - 1, BlockBase - 1);
    assert (BlockBase - 1) * y == y * (BlockBase - 1);
    var sum: nat := x * y + c;
    assert sum < BlockBase * BlockBase;
    SplitSum(sum);
    BelowSquare(sum / BlockBase, sum);
  }

  /** a <= b, so a m <= b m, for m not negative. */
  lemma {:induction false} MulMono(a: nat, b: nat, m: nat)
    requires a <= b
    ensures 0 <= a * m <= b * m
  {
    MulNonNegative(b - a, m);
    assert b * m - a * m == (b - a) * m;
  }

  lemma {:induction false} MulNonNegative(a: nat, b: nat)
    ensures a * b >= 0
  {
  }

  lemma {:induction false} BelowSquare(q: nat, sum: nat)
    requires q * BlockBase <= sum < BlockBase * BlockBase
    ensures q < BlockBase
  {
    assert (q - BlockBase) * BlockBase == q * BlockBase - BlockBase * BlockBase;
  }

  lemma {:induction false} ValueOfOne(x: Block)
    ensures ValueOf([x]) == x
  {
    assert [x][..0] == [];
  }

  lemma {:induction false} ValueOfTwo(lo: Block, hi: Block)
    ensures ValueOf([lo, hi]) == lo + hi * BlockBase
  {
    assert [lo, hi][..1] == [lo];
    ValueOfOne(lo);
  }

  /** The multiplying form of CarryStep: the turn adds block x times m. */
  lemma {:induction false} MulStep(r: nat, b: nat, c: nat, c2: nat, sum: nat, p: nat, low: nat, x: nat, m: nat)
    requires r + c * p == low * m
    requires sum == c2 * BlockBase + b && sum == x * m + c
    ensures (r + b * p) + c2 * (BlockBase * p) == (low + x * p) * m
  {
    CarryStep(r, b, c, c2, sum, p, low * m, x * m);
    assert (x * m) * p == (x * p) * m;
  }

  /** BlockPower is a power of two. */
  lemma {:induction false} BlockPowerIsPow2(k: nat)
    ensures BlockPower(k) == TUMaths.Pow2(32 * k)
    decreases k
  {
    if k > 0 {
      BlockPowerIsPow2(k - 1);
      Pow2Of32();
      TUMaths.Pow2Add(32 * (k - 1), 32);
    }
  }

  lemma {:induction false} Pow2Of32()
    ensures TUMaths.Pow2(32) == BlockBase
  {
    assert TUMaths.Pow2(4) == 0x10;
    TUMaths.Pow2Add(4, 4);
    assert TUMaths.Pow2(8) == 0x100;
    TUMaths.Pow2Add(8, 8);
    assert TUMaths.Pow2(16) == 0x1_0000;
    TUMaths.Pow2Add(16, 16);
  }

  // ---------------------------------------------------------------- the class

  class BigInt {
    /** m_Length: the number of blocks in use. */
    var length: nat
    /** m_Blocks. */
    const blocks: array<Block>

    ghost predicate Valid()
      reads this
    {
      blocks.Length == MaxBlocks && length <= MaxBlocks
    }

    /** The blocks in use. */
    function Blocks(): (r: seq<Block>)
      reads this, blocks
      requires Valid()
      ensures |r| == length
    {
      blocks[..length]
    }

    function Value(): nat
      reads this, blocks
      requires Valid()
    {
      ValueOf(Blocks())
    }

    predicate Normalized()
      reads this, blocks
      requires Valid()
    {
      IsNormalized(Blocks())
    }

    /** The default constructor: length 0, every block 0. */
    constructor()
      ensures Valid() && length == 0 && Value() == 0 && Normalized() && fresh(blocks)
    {
      length := 0;
      blocks := new Block[MaxBlocks](_ => 0);
    }

    /** The copy and move constructors: a fresh BigInt with the same blocks in use. */
    constructor Copy(other: BigInt)
      requires other.Valid()
      ensures Valid() && Blocks() == other.Blocks() && fresh(blocks)
    {
      length := other.length;
      var b := new Block[MaxBlocks](_ => 0);
      var i := 0;
      while i < other.length
        invariant i <= other.length
        invariant b[..i] == other.blocks[..i]
      {
        b[i] := other.blocks[i];
        i := i + 1;
      }
      blocks := b;
    }

    /**
     * Copy and move assignment: the blocks in use of `other`; the blocks above
     * them keep what they held. Assigning a BigInt to itself changes nothing.
     */
    method Assign(other: BigInt)
      requires Valid() && other.Valid()
      requires other == this || other.blocks != blocks
      modifies this, blocks
      ensures Valid() && Blocks() == old(other.Blocks())
      ensures blocks[length..] == old(blocks[..])[length..]
    {
      if other == this {
        return;
      }
      length := other.length;
      var i := 0;
      while i < other.length
        invariant i <= other.length == length
        invariant blocks[..i] == other.blocks[..i]
        invariant blocks[i..] == old(blocks[i..])
      {
        blocks[i] := other.blocks[i];
        i := i + 1;
      }
    }

    /** Length64: the number of 64-bit words the blocks in use cover. */
    function Length64(): (r: nat)
      reads this
      ensures 2 * r == length || 2 * r == length + 1
    {
      (length + 1) / 2
    }

    predicate IsZero()
      reads this
    {
      length == 0
    }

    /** GetU32: the low block, or 0 when no block is in use. */
    function GetU32(): (r: Block)
      reads this, blocks
      requires Valid()
    {
      if length == 0 then 0 else blocks[0]
    }

    method SetZero()
      requires Valid()
      modifies this
      ensures Valid() && Value() == 0 && Normalized() && length == 0
    {
      length := 0;
    }

    method SetU32(val: Block)
      requires Valid()
      modifies this, blocks
      ensures Valid() && Value() == val && Normalized()
      ensures length == if val == 0 then 0 else 1
    {
      if val == 0 {
        length := 0;
      } else {
        blocks[0] := val;
        length := 1;
        assert Blocks() == [val];
        ValueOfOne(val);
      }
    }

    method SetU64(val: nat)
      requires Valid() && val < TUMaths.TwoTo64
      modifies this, blocks
      ensures Valid() && Value() == val && Normalized()
      ensures length == if val == 0 then 0 else if val < BlockBase then 1 else 2
    {
      if val == 0 {
        length := 0;
      } else if val > 0xFFFF_FFFF {
        SplitSum(val);
        blocks[0] := val % BlockBase;
        blocks[1] := val / BlockBase;
        length := 2;
        assert Blocks() == [val % BlockBase, val / BlockBase];
        ValueOfTwo(val % BlockBase, val / BlockBase);
      } else {
        blocks[0] := val;
        length := 1;
        assert Blocks() == [val];
        ValueOfOne(val);
      }
    }

    /**
     * CompareTo: a shorter BigInt is smaller, and BigInts of one length compare
     * at their highest differing block. On normalized BigInts that is the sign
     * of left - right.
     */
    static method CompareTo(left: BigInt, right: BigInt) returns (r: int)
      requires left.Valid() && right.Valid()
      ensures left.length != right.length ==> r == Sign(left.length - right.length)
      ensures left.length == right.length || (left.Normalized() && right.Normalized()) ==>
                r == Sign(left.Value() - right.Value())
    {
      var lengthDiff := left.length - right.length;
      if lengthDiff != 0 {
        if left.Normalized() && right.Normalized() {
          if lengthDiff < 0 {
            LongerIsLarger(right.Blocks(), left.Blocks());
          } else {
            LongerIsLarger(left.Blocks(), right.Blocks());
          }
        }
        return if lengthDiff < 0 then -1 else 1;
      }
      r := CompareBlocks(left.blocks, right.blocks, left.length);
    }

    /** The comparison of two block arrays of the same length. */
    static method CompareBlocks(x: array<Block>, y: array<Block>, n: nat) returns (r: int)
      requires n <= x.Length && n <= y.Length
      ensures r == Sign(ValueOf(x[..n]) - ValueOf(y[..n]))
    {
      var i := FirstDifference(x, y, n);
      ScanResult(x[..n], y[..n], i);
      if i < 0 {
        r := 0;
      } else if x[i] > y[i] {
        r := 1;
      } else {
        r := -1;
      }
    }

    /** The top-down scan: the highest index below n where x and y differ, or -1. */
    static method FirstDifference(x: array<Block>, y: array<Block>, n: nat) returns (i: int)
      requires n <= x.Length && n <= y.Length
      ensures -1 <= i < n && x[..n][i + 1..] == y[..n][i + 1..]
      ensures i >= 0 ==> x[i] != y[i]
    {
      i := n - 1;
      while i >= 0 && x[i] == y[i]
        invariant -1 <= i < n
        invariant x[i + 1..n] == y[i + 1..n]
        decreases i
      {
        assert x[i..n] == [x[i]] + x[i + 1..n] && y[i..n] == [y[i]] + y[i + 1..n];
        i := i - 1;
      }
      assert x[i + 1..n] == x[..n][i + 1..] && y[i + 1..n] == y[..n][i + 1..];
    }

    /**
     * Add: result := left + right, block by block with a carry; a carry out of
     * the top block adds a block holding 1.
     */
    static method Add(result: BigInt, left: BigInt, right: BigInt)
      requires result.Valid() && left.Valid() && right.Valid()
      requires result.blocks != left.blocks && result.blocks != right.blocks
      requires left.length < MaxBlocks && right.length < MaxBlocks
      modifies result, result.blocks
      ensures result.Valid()
      ensures result.Value() == old(left.Value()) + old(right.Value())
      ensures old(left.Normalized()) && old(right.Normalized()) ==> result.Normalized()
    {
      var large, small := left, right;
      if left.length < right.length {
        small, large := left, right;
      }
      ghost var big, little := large.Blocks(), small.Blocks();
      ghost var normal := left.Normalized() && right.Normalized();
      assert normal ==> IsNormalized(big);
      var carry := AddLow(result.blocks, large.blocks, small.blocks, small.length);
      assert large.blocks[..small.length] == big[..small.length] && small.blocks[..small.length] == little;
      carry := AddHigh(result.blocks, large.blocks, small.length, large.length, carry, ValueOf(little));
      assert large.blocks[..large.length] == big;
      FinishCarry(result, large.length, carry);
      if normal && carry == 0 {
        GrowthNormalized(result.Blocks(), big);
      }
    }

    /** Add's first loop: the n blocks both operands have, summed with a carry. */
    static method AddLow(dst: array<Block>, x: array<Block>, y: array<Block>, n: nat) returns (carry: nat)
      requires dst != x && dst != y && n <= dst.Length && n <= x.Length && n <= y.Length
      modifies dst
      ensures carry <= 1
      ensures ValueOf(dst[..n]) + carry * BlockPower(n) == ValueOf(x[..n]) + ValueOf(y[..n])
    {
      ghost var a, b := x[..n], y[..n];
      ghost var acc: seq<Block> := [];
      carry := 0;
      var i: nat := 0;
      while i < n
        invariant i <= n && carry <= 1 && |acc| == i
        invariant forall k :: 0 <= k < i ==> dst[k] == acc[k]
        invariant ValueOf(acc) + carry * BlockPower(i) == ValueOf(a[..i]) + ValueOf(b[..i])
      {
        var sum := carry + x[i] + y[i];
        assert x[i] == a[i] && y[i] == b[i];
        SplitSum(sum);
        var digit: Block := sum % BlockBase;
        dst[i] := digit;
        LowStep(acc + [digit], acc, a, b, i, carry, sum);
        acc := acc + [digit];
        carry := sum / BlockBase;
        i := i + 1;
      }
      assert dst[..n] == acc && a[..n] == a && b[..n] == b;
    }

    /** Add's second loop: the carry rippled through blocks from..n of the longer operand. */
    static method AddHigh(dst: array<Block>, x: array<Block>, from: nat, n: nat, carry0: nat, ghost low: nat)
      returns (carry: nat)
      requires dst != x && from <= n <= dst.Length && n <= x.Length && carry0 <= 1
      requires ValueOf(dst[..from]) + carry0 * BlockPower(from) == ValueOf(x[..from]) + low
      modifies dst
      ensures carry <= 1
      ensures ValueOf(dst[..n]) + carry * BlockPower(n) == ValueOf(x[..n]) + low
    {
      ghost var a := x[..n];
      ghost var acc := dst[..from];
      assert a[..from] == x[..from];
      carry := carry0;
      var i: nat := from;
      while i < n
        invariant from <= i <= n && carry <= 1 && |acc| == i
        invariant forall k :: 0 <= k < i ==> dst[k] == acc[k]
        invariant ValueOf(acc) + carry * BlockPower(i) == ValueOf(a[..i]) + low
      {
        var sum := carry + x[i];
        assert x[i] == a[i];
        SplitSum(sum);
        var digit: Block := sum % BlockBase;
        dst[i] := digit;
        HighStep(acc + [digit], acc, a, i, carry, sum, low);
        acc := acc + [digit];
        carry := sum / BlockBase;
        i := i + 1;
      }
      assert dst[..n] == acc && a[..n] == a;
    }

    /**
     * The loop of Mul(u32), Mul2 and Mul10: dst[..n] := src[..n] times m, block by
     * block with a carry, which is returned. dst and src may be one array.
     */
    static method Scale(dst: array<Block>, src: array<Block>, n: nat, m: Block) returns (carry: nat)
      requires n <= dst.Length && n <= src.Length
      modifies dst
      ensures carry < BlockBase
      ensures ValueOf(dst[..n]) + carry * BlockPower(n) == ValueOf(old(src[..n])) * m
      ensures dst[n..] == old(dst[n..])
    {
      ghost var orig := src[..n];
      ghost var rest := dst[n..];
      carry := 0;
      var i: nat := 0;
      while i < n
        invariant i <= n
        invariant carry < BlockBase
        invariant src[i..n] == orig[i..]
        invariant dst[n..] == rest
        invariant ValueOf(dst[..i]) + carry * BlockPower(i) == ValueOf(orig[..i]) * m
      {
        var x := src[i];
        assert x == orig[i] by { assert src[i..n][0] == orig[i..][0]; }
        MulNonNegative(x, m);
        var product: nat := x * m + carry;
        SplitSum(product);
        ghost var before := dst[..i];
        dst[i] := product % BlockBase;
        var next: nat := product / BlockBase;
        assert next < BlockBase && ValueOf(dst[..i + 1]) + next * BlockPower(i + 1) == ValueOf(orig[..i + 1]) * m by {
          ProductCarry(x, m, carry);
          assert dst[..i + 1][..i] == before;
          MulTurn(dst[..i + 1], before, orig, i, carry, product, m);
        }
        carry := next;
        i := i + 1;
      }
      assert orig[..n] == orig;
    }

    /** Mul(result, left, u32): result := left * right. */
    static method MulU32(result: BigInt, left: BigInt, right: Block)
      requires result.Valid() && left.Valid() && left.length < MaxBlocks
      modifies result, result.blocks
      ensures result.Valid()
      ensures result.Value() == old(left.Value()) * right
      ensures old(left.Normalized()) && right != 0 ==> result.Normalized()
    {
      ghost var v := left.Blocks();
      var n := left.length;
      var carry := Scale(result.blocks, left.blocks, n, right);
      FinishCarry(result, n, carry);
      if IsNormalized(v) && right != 0 && carry == 0 {
        AtLeastSelf(ValueOf(v), right);
        GrowthNormalized(result.Blocks(), v);
      }
    }

    /** Mul10: this := this * 10, in place. */
    method Mul10()
      requires Valid() && length < MaxBlocks
      modifies this, blocks
      ensures Valid()
      ensures Value() == old(Value()) * 10
      ensures old(Normalized()) ==> Normalized()
    {
      ghost var v := Blocks();
      var carry := Scale(blocks, blocks, length, 10);
      FinishCarry(this, length, carry);
      if IsNormalized(v) && carry == 0 {
        AtLeastSelf(ValueOf(v), 10);
        GrowthNormalized(Blocks(), v);
      }
    }

    /**
     * Mul2(result, left): result := left * 2, as the shift by one bit with the
     * bit shifted out of each block carried into the next (see Mul2AsWritten).
     */
    static method Mul2(result: BigInt, left: BigInt)
      requires result.Valid() && left.Valid() && left.length < MaxBlocks
      modifies result, result.blocks
      ensures result.Valid()
      ensures result.Value() == old(left.Value()) * 2
      ensures old(left.Normalized()) ==> result.Normalized()
    {
      MulU32(result, left, 2);
    }

    /** Mul2(result): this := this * 2, in place (see Mul2AsWritten). */
    method Mul2Self()
      requires Valid() && length < MaxBlocks
      modifies this, blocks
      ensures Valid()
      ensures Value() == old(Value()) * 2
      ensures old(Normalized()) ==> Normalized()
    {
      ghost var v := Blocks();
      var carry := Scale(blocks, blocks, length, 2);
      FinishCarry(this, length, carry);
      if IsNormalized(v) && carry == 0 {
        AtLeastSelf(ValueOf(v), 2);
        GrowthNormalized(Blocks(), v);
      }
    }

    /** Pow2: result := 2 to the exponent, one bit set in block exponent / 32. */
    static method Pow2(result: BigInt, exponent: nat)
      requires result.Valid() && exponent < 32 * MaxBlocks
      modifies result, result.blocks
      ensures result.Valid() && result.Normalized()
      ensures result.Value() == TUMaths.Pow2(exponent)
      ensures result.length == exponent / 32 + 1
    {
      var blockIndex := exponent / 32;
      var bitIndex := exponent % 32;
      var i := 0;
      while i <= blockIndex
        invariant i <= blockIndex + 1
        invariant result.blocks[..i] == Zeros(i)
        modifies result.blocks
      {
        result.blocks[i] := 0;
        i := i + 1;
      }
      result.length := blockIndex + 1;
      BitInBlock(bitIndex);
      // the block is zero, so or-ing the bit in sets it
      result.blocks[blockIndex] := TUMaths.Pow2(bitIndex);
      assert result.Blocks()[..blockIndex] == Zeros(blockIndex);
      OneBitValue(result.Blocks(), blockIndex, bitIndex);
    }

    /**
     * ShiftLeft: this := this * 2 to the shift. Whole blocks move up by
     * shift / 32 (ShiftBlocks); the remaining shift % 32 bits move each block's
     * top bits into the block above, which is multiplying by 2 to the shift % 32
     * with a carry (see ShiftLeftAsWritten for the loop as the source spells it).
     */
    method ShiftLeft(shift: nat)
      requires Valid() && length + shift / 32 < MaxBlocks
      modifies this, blocks
      ensures Valid()
      ensures Value() == old(Value()) * TUMaths.Pow2(shift)
      ensures old(Normalized()) && old(Value()) != 0 ==> Normalized()
    {
      var shiftBlocks := shift / 32;
      var shiftBits := shift % 32;
      ghost var v := Value();
      ghost var wasNormal := Normalized();
      if shiftBits != 0 {
        ghost var before := Blocks();
        BitInBlock(shiftBits);
        var carry := Scale(blocks, blocks, length, TUMaths.Pow2(shiftBits));
        FinishCarry(this, length, carry);
        if IsNormalized(before) && carry == 0 {
          AtLeastSelf(ValueOf(before), TUMaths.Pow2(shiftBits));
          GrowthNormalized(Blocks(), before);
        }
      }
      assert Value() == v * TUMaths.Pow2(shiftBits);
      ghost var scaled := Normalized();
      ShiftBlocks(shiftBlocks);
      ShiftTotal(v, shift, shiftBlocks, shiftBits);
    }

    /** ShiftLeft by whole blocks: the blocks move up by count and zeros fill in below. */
    method ShiftBlocks(count: nat)
      requires Valid() && length + count <= MaxBlocks
      modifies this, blocks
      ensures Valid() && length == old(length) + count
      ensures Blocks() == Zeros(count) + old(Blocks())
      ensures Value() == old(Value()) * BlockPower(count)
      ensures old(Normalized()) && old(length) != 0 ==> Normalized()
    {
      ghost var orig := Blocks();
      var n := length;
      MoveUp(blocks, n, count);
      ZeroBelow(blocks, count);
      length := n + count;
      assert Blocks() == Zeros(count) + orig by {
        assert Blocks()[..count] == Zeros(count) && Blocks()[count..] == orig;
      }
      ShiftedValue(Blocks(), orig, count);
    }

    /** ShiftBlocks' first loop: a[..n] copied up to a[count..n + count], top block first. */
    static method MoveUp(a: array<Block>, n: nat, count: nat)
      requires n + count <= a.Length
      modifies a
      ensures a[count..n + count] == old(a[..n])
      ensures a[n + count..] == old(a[n + count..])
    {
      ghost var orig := a[..];
      var i: int := n - 1;
      while i >= 0
        invariant -1 <= i < n
        invariant forall k :: 0 <= k <= i ==> a[k] == orig[k]
        invariant forall k :: i < k < n ==> a[k + count] == orig[k]
        invariant forall k :: n + count <= k < a.Length ==> a[k] == orig[k]
      {
        a[i + count] := a[i];
        i := i - 1;
      }
      assert a[count..n + count] == orig[..n] by {
        forall k | 0 <= k < n ensures a[count..n + count][k] == orig[..n][k] {
          assert a[k + count] == orig[k];
        }
      }
    }

    /** ShiftBlocks' second loop: the count blocks at the bottom set to zero. */
    static method ZeroBelow(a: array<Block>, count: nat)
      requires count <= a.Length
      modifies a
      ensures a[..count] == Zeros(count)
      ensures a[count..] == old(a[count..])
    {
      var k := 0;
      while k < count
        invariant k <= count
        invariant a[..k] == Zeros(k)
        invariant a[count..] == old(a[count..])
      {
        a[k] := 0;
        k := k + 1;
      }
    }

    /**
     * Mul(result, left, right): result := left * right by long multiplication,
     * one row per block of the shorter operand, the row for block i added in
     * at block i (see MulAsWritten for the loop as the source spells it). The
     * length is left.length + right.length, less one when that top block is zero.
     */
    static method Mul(result: BigInt, left: BigInt, right: BigInt)
      requires result.Valid() && left.Valid() && right.Valid()
      requires result.blocks != left.blocks && result.blocks != right.blocks
      requires left.length + right.length <= MaxBlocks
      modifies result, result.blocks
      ensures result.Valid()
      ensures result.Value() == old(left.Value()) * old(right.Value())
      ensures old(left.Normalized() && right.Normalized() && left.length != 0 && right.length != 0) ==>
                result.Normalized()
    {
      ghost var a, b := left.Blocks(), right.Blocks();
      var maxResultLen := left.length + right.length;
      // the longer operand is the one whose blocks are walked in the inner loop
      if left.length < right.length {
        MulBlocks(result.blocks, right, left);
      } else {
        MulBlocks(result.blocks, left, right);
      }
      ghost var product := result.blocks[..maxResultLen];
      assert ValueOf(product) == ValueOf(a) * ValueOf(b);
      var length := maxResultLen;
      if maxResultLen > 0 && result.blocks[maxResultLen - 1] == 0 {
        length := maxResultLen - 1;
      }
      result.length := length;
      assert result.Blocks() == product[..length];
      TrimmedProduct(product, result.Blocks(), a, b);
    }

    /** Mul's zeroing and its loop over the blocks of small: dst[..|large| + |small|] := large * small. */
    static method MulBlocks(dst: array<Block>, large: BigInt, small: BigInt)
      requires large.Valid() && small.Valid() && dst != large.blocks && dst != small.blocks
      requires large.length + small.length <= dst.Length
      modifies dst
      ensures ValueOf(dst[..large.length + small.length]) == old(large.Value()) * old(small.Value())
    {
      ghost var big, little := large.Blocks(), small.Blocks();
      var maxResultLen := large.length + small.length;
      ZeroBelow(dst, maxResultLen);
      StartProduct(dst[..maxResultLen], big, little);
      var i := 0;
      while i < small.length
        invariant i <= small.length
        invariant PartialProduct(dst[..maxResultLen], big, little, i)
      {
        MulRow(dst, large.blocks, large.length, i, small.blocks[i], big, little, maxResultLen);
        i := i + 1;
      }
      assert little[..i] == little;
    }

    /**
     * The body of Mul's loop: unless block off of the shorter operand is zero,
     * its row is added in at block off and its carry stored above the row.
     */
    static method MulRow(dst: array<Block>, src: array<Block>, n: nat, off: nat, m: Block,
                         ghost big: seq<Block>, ghost little: seq<Block>, len: nat)
      requires dst != src && n <= src.Length && src[..n] == big
      requires len == |big| + |little| <= dst.Length && off < |little| && little[off] == m
      requires PartialProduct(dst[..len], big, little, off)
      modifies dst
      ensures PartialProduct(dst[..len], big, little, off + 1)
    {
      if m != 0 {
        ghost var was := dst[..len];
        ghost var whole := dst[..];
        var carry := MulAddRow(dst, src, n, off, m);
        ghost var mid := dst[..];
        dst[off + n] := carry;
        ghost var now := dst[..len];
        assert now[..off] == was[..off] by {
          assert mid[..off] == whole[..off];
        }
        assert now[off + n + 1..] == was[off + n + 1..] by {
          assert mid[off + n..] == whole[off + n..];
        }
        assert ValueOf(now[off..off + n]) + carry * BlockPower(n) == ValueOf(was[off..off + n]) + ValueOf(big) * m by {
          assert now[off..off + n] == mid[off..off + n];
          assert was[off..off + n] == whole[off..off + n];
        }
        RowAdded(now, was, big, little, off, carry);
      } else {
        PrefixZeroStep(dst[..len], big, little, off);
      }
    }

    /**
     * One row of Mul: dst[off..off + n] += src[..n] * m, block by block with a
     * carry, which is returned; nothing else in dst changes.
     */
    static method MulAddRow(dst: array<Block>, src: array<Block>, n: nat, off: nat, m: Block) returns (carry: nat)
      requires dst != src && off + n <= dst.Length && n <= src.Length
      modifies dst
      ensures carry < BlockBase
      ensures ValueOf(dst[off..off + n]) + carry * BlockPower(n) ==
              ValueOf(old(dst[off..off + n])) + ValueOf(src[..n]) * m
      ensures dst[..off] == old(dst[..off]) && dst[off + n..] == old(dst[off + n..])
    {
      ghost var whole := dst[..];
      ghost var orig := dst[off..off + n];
      ghost var row := src[..n];
      carry := 0;
      var j: nat := 0;
      while j < n
        invariant j <= n && carry < BlockBase
        invariant forall k :: 0 <= k < dst.Length && (k < off || off + j <= k) ==> dst[k] == whole[k]
        invariant ValueOf(dst[off..off + j]) + carry * BlockPower(j) == ValueOf(orig[..j]) + ValueOf(row[..j]) * m
      {
        var x := dst[off + j];
        assert x == orig[j];
        MulNonNegative(src[j], m);
        var product: nat := x + src[j] * m + carry;
        SplitSum(product);
        ghost var before := dst[off..off + j];
        dst[off + j] := product % BlockBase;
        var next: nat := product / BlockBase;
        assert next < BlockBase && ValueOf(dst[off..off + j + 1]) + next * BlockPower(j + 1) ==
               ValueOf(orig[..j + 1]) + ValueOf(row[..j + 1]) * m by {
          ProductCarry(src[j], m, x + carry);
          assert dst[off..off + j + 1][..j] == before;
          MulAddTurn(dst[off..off + j + 1], before, orig, row, j, carry, product, m);
        }
        carry := next;
        j := j + 1;
      }
      assert orig[..n] == orig && row[..n] == row;
      assert dst[..off] == whole[..off] && dst[off + n..] == whole[off + n..];
    }

    /**
     * DivWithRem_MaxQuotient9: for a quotient of at most 9, dividend := the
     * remainder and the quotient returned. The quotient is first estimated
     * from the top blocks as dividend top / (divisor top + 1), which with a
     * divisor top block of at least 8 is the quotient or one short of it
     * (EstimateQuotient); that many divisors are subtracted, and one more when
     * the rest still reaches the divisor.
     */
    static method DivWithRem(dividend: BigInt, divisor: BigInt) returns (quotient: nat)
      requires dividend.Valid() && divisor.Valid() && dividend.blocks != divisor.blocks
      requires dividend.Normalized() && divisor.Normalized()
      requires divisor.length > 0 && 8 <= divisor.blocks[divisor.length - 1] <= 0x1999_9999
      requires dividend.length <= divisor.length
      requires dividend.Value() < 10 * divisor.Value()
      modifies dividend, dividend.blocks
      ensures dividend.Valid() && dividend.Normalized()
      ensures quotient == old(dividend.Value()) / divisor.Value()
      ensures dividend.Value() == old(dividend.Value()) % divisor.Value()
    {
      ghost var d, v := dividend.Value(), divisor.Value();
      NormalizedRange(divisor.Blocks());
      var length := divisor.length;
      if dividend.length < length {
        LongerIsLarger(divisor.Blocks(), dividend.Blocks());
        TUMaths.DivModUnique(d, v, 0, d);
        return 0;
      }
      quotient := SubtractEstimate(dividend, divisor);
      var comparison := CompareTo(dividend, divisor);
      if comparison >= 0 {
        ghost var before := dividend.Value();
        SubtractTimes(dividend, divisor, 1);
        OneMore(d, quotient, v, before, dividend.Value());
        quotient := quotient + 1;
      } else {
        assert dividend.Value() < v;
      }
      TUMaths.DivModUnique(d, v, quotient, dividend.Value());
    }

    /**
     * The first phase of DivWithRem_MaxQuotient9 on operands of the same
     * length: the estimate from the top blocks, and that many divisors
     * subtracted. Less than two divisors are left.
     */
    static method SubtractEstimate(dividend: BigInt, divisor: BigInt) returns (quotient: nat)
      requires dividend.Valid() && divisor.Valid() && dividend.blocks != divisor.blocks
      requires dividend.Normalized() && divisor.Normalized()
      requires divisor.length > 0 && 8 <= divisor.blocks[divisor.length - 1] <= 0x1999_9999
      requires dividend.length == divisor.length
      requires dividend.Value() < 10 * divisor.Value()
      modifies dividend, dividend.blocks
      ensures dividend.Valid() && dividend.Normalized() && dividend.length <= divisor.length
      ensures ValueOf(dividend.blocks[..divisor.length]) == dividend.Value()
      ensures quotient < 10
      ensures old(dividend.Value()) == divisor.Value() * quotient + dividend.Value()
      ensures 0 <= dividend.Value() < divisor.Value() + divisor.Value()
    {
      ghost var d, v := dividend.Value(), divisor.Value();
      var length := divisor.length;
      // the top block is at most 0x1999_9999, so the u32 sum does not wrap
      var top: nat, below: nat := dividend.blocks[length - 1], divisor.blocks[length - 1] as int + 1;
      QuotientBounds(top, below);
      quotient := top / below;
      EstimateQuotient(dividend.Blocks(), divisor.Blocks(), quotient);
      if quotient != 0 {
        SubtractTimes(dividend, divisor, quotient);
      }
      RestBelowTwice(d, quotient, v);
    }

    /**
     * One subtraction phase of DivWithRem_MaxQuotient9: dividend -= divisor * q
     * over the divisor's blocks, then the dividend's length is trimmed of zero
     * top blocks. The blocks between the trimmed length and the divisor's
     * length are left zero.
     */
    static method SubtractTimes(dividend: BigInt, divisor: BigInt, q: Block)
      requires dividend.Valid() && divisor.Valid() && dividend.blocks != divisor.blocks
      requires dividend.length <= divisor.length
      requires ValueOf(dividend.blocks[..divisor.length]) == dividend.Value()
      requires q * divisor.Value() <= dividend.Value()
      modifies dividend, dividend.blocks
      ensures dividend.Valid() && dividend.Normalized() && dividend.length <= divisor.length
      ensures dividend.Value() == old(dividend.Value()) - q * divisor.Value()
      ensures ValueOf(dividend.blocks[..divisor.length]) == dividend.Value()
    {
      ghost var n, len, d, v := divisor.length, dividend.length, dividend.Value(), divisor.Value();
      ghost var row := divisor.blocks[..n];
      assert ValueOf(dividend.blocks[..n]) == d && ValueOf(row) == v;
      ValueBound(dividend.Blocks());
      MulNonNegative(q, v);
      var carry, borrow := MulSubtract(dividend.blocks, divisor.blocks, divisor.length, q);
      ghost var after := dividend.blocks[..n];
      assert ValueOf(after) == d - q * v + (carry + borrow) * BlockPower(n);
      NothingLeftOver(after, d - q * v, carry + borrow);
      HighZeros(after, len);
      assert after[..len] == dividend.blocks[..len];
      var length := TrimZeros(dividend.blocks, dividend.length);
      dividend.length := length;
    }

    /**
     * The subtraction loops of DivWithRem_MaxQuotient9: dst[..n] -= src[..n] * q,
     * with a carry from the products and a borrow from the differences, both
     * returned. The second loop of the source is this one with q = 1, whose
     * carry stays 0.
     */
    static method MulSubtract(dst: array<Block>, src: array<Block>, n: nat, q: Block) returns (carry: nat, borrow: nat)
      requires dst != src && n <= dst.Length && n <= src.Length
      modifies dst
      ensures carry < BlockBase && borrow <= 1
      ensures ValueOf(dst[..n]) == ValueOf(old(dst[..n])) - q * ValueOf(src[..n]) + (carry + borrow) * BlockPower(n)
      ensures dst[n..] == old(dst[n..])
    {
      ghost var orig := dst[..n];
      ghost var row := src[..n];
      carry, borrow := 0, 0;
      var i: nat := 0;
      while i < n
        invariant i <= n && carry < BlockBase && borrow <= 1
        invariant dst[i..n] == orig[i..] && dst[n..] == old(dst[n..])
        invariant ValueOf(dst[..i]) == ValueOf(orig[..i]) - q * ValueOf(row[..i]) + (carry + borrow) * BlockPower(i)
      {
        var x := dst[i];
        assert x == orig[i] by { assert dst[i..n][0] == orig[i..][0]; }
        MulNonNegative(src[i], q);
        var product: nat := src[i] * q + carry;
        SplitSum(product);
        var difference := x - product % BlockBase - borrow;
        ghost var before := dst[..i];
        dst[i] := difference % BlockBase;
        var nextCarry: nat := product / BlockBase;
        var nextBorrow: nat := if difference < 0 then 1 else 0;
        assert nextCarry < BlockBase && ValueOf(dst[..i + 1]) ==
               ValueOf(orig[..i + 1]) - q * ValueOf(row[..i + 1]) + (nextCarry + nextBorrow) * BlockPower(i + 1) by {
          ProductCarry(src[i], q, carry);
          assert dst[..i + 1][..i] == before;
          SubTurn(dst[..i + 1], before, orig, row, i, carry, borrow, q, product, difference);
        }
        carry, borrow := nextCarry, nextBorrow;
        i := i + 1;
      }
      assert orig[..n] == orig && row[..n] == row;
    }

    /** The loops removing leading zero blocks: the length without the zero blocks on top. */
    static method TrimZeros(a: array<Block>, len: nat) returns (r: nat)
      requires len <= a.Length
      ensures r <= len && IsNormalized(a[..r]) && ValueOf(a[..r]) == ValueOf(a[..len])
    {
      r := len;
      while r > 0 && a[r - 1] == 0
        invariant r <= len && ValueOf(a[..r]) == ValueOf(a[..len])
      {
        assert a[..r][..r - 1] == a[..r - 1];
        TopZeroDropped(a[..r]);
        r := r - 1;
      }
    }

    /** The tail shared by the carry loops: a carry left over becomes the new top block. */
    static method FinishCarry(result: BigInt, n: nat, carry: nat)
      requires result.Valid() && n < MaxBlocks && carry < BlockBase
      modifies result, result.blocks
      ensures result.Valid()
      ensures result.Value() == ValueOf(old(result.blocks[..n])) + carry * BlockPower(n)
      ensures result.length == if carry != 0 then n + 1 else n
      ensures result.blocks[..n] == old(result.blocks[..n])
      ensures carry != 0 ==> result.Normalized()
    {
      ghost var low := result.blocks[..n];
      if carry != 0 {
        result.blocks[n] := carry;
        result.length := n + 1;
        assert result.Blocks()[..n] == low;
        ValueSnoc(result.Blocks(), n);
      } else {
        result.length := n;
      }
    }
  }

  /** One turn of a carry loop: block i written as the low half of sum, the carry passed on. */
  lemma {:induction false} CarryTurn(now: seq<Block>, before: seq<Block>, i: nat, carry: nat, sum: nat, target: nat, add: nat)
    requires |now| == i + 1 && now[..i] == before
    requires ValueOf(before) + carry * BlockPower(i) == target
    requires sum == carry + add && now[i] == sum % BlockBase
    ensures ValueOf(now) + (sum / BlockBase) * BlockPower(i + 1) == target + add * BlockPower(i)
  {
    SplitSum(sum);
    assert now[..i + 1] == now;
    ValueSnoc(now, i);
    PowerStep(i);
    CarryStep(ValueOf(before), now[i], carry, sum / BlockBase, sum, BlockPower(i), target, add);
  }

  /** The value of two prefixes grows by the sum of their next blocks. */
  /** One turn of Add's first loop, on the blocks written so far. */
  lemma {:induction false} LowStep(now: seq<Block>, before: seq<Block>, a: seq<Block>, b: seq<Block>, i: nat, carry: nat, sum: nat)
    requires i < |a| && i < |b| && |before| == i && now == before + [sum % BlockBase] && sum == carry + a[i] + b[i]
    requires ValueOf(before) + carry * BlockPower(i) == ValueOf(a[..i]) + ValueOf(b[..i])
    ensures ValueOf(now) + (sum / BlockBase) * BlockPower(i + 1) == ValueOf(a[..i + 1]) + ValueOf(b[..i + 1])
  {
    assert now[..i] == before;
    CarryTurn(now, before, i, carry, sum, ValueOf(a[..i]) + ValueOf(b[..i]), a[i] as nat + b[i]);
    PrefixSum(a, b, i);
  }

  /** One turn of Add's second loop, on the blocks written so far. */
  lemma {:induction false} HighStep(now: seq<Block>, before: seq<Block>, a: seq<Block>, i: nat, carry: nat, sum: nat, low: nat)
    requires i < |a| && |before| == i && now == before + [sum % BlockBase] && sum == carry + a[i]
    requires ValueOf(before) + carry * BlockPower(i) == ValueOf(a[..i]) + low
    ensures ValueOf(now) + (sum / BlockBase) * BlockPower(i + 1) == ValueOf(a[..i + 1]) + low
  {
    assert now[..i] == before;
    CarryTurn(now, before, i, carry, sum, ValueOf(a[..i]) + low, a[i]);
    ValueSnoc(a, i);
  }

  lemma {:induction false} PrefixSum(big: seq<Block>, little: seq<Block>, i: nat)
    requires i < |big| && i < |little|
    ensures ValueOf(big[..i + 1]) + ValueOf(little[..i + 1]) ==
            ValueOf(big[..i]) + ValueOf(little[..i]) + (big[i] + little[i]) * BlockPower(i)
  {
    ValueSnoc(big, i);
    ValueSnoc(little, i);
    assert (big[i] + little[i]) * BlockPower(i) == big[i] * BlockPower(i) + little[i] * BlockPower(i);
  }

  /** One turn of a multiplying loop: block i of the product written, its carry passed on. */
  lemma {:induction false} MulTurn(now: seq<Block>, before: seq<Block>, src: seq<Block>, i: nat, carry: nat, sum: nat, m: nat)
    requires |now| == i + 1 && now[..i] == before && i < |src|
    requires ValueOf(before) + carry * BlockPower(i) == ValueOf(src[..i]) * m
    requires sum == src[i] * m + carry && now[i] == sum % BlockBase
    ensures ValueOf(now) + (sum / BlockBase) * BlockPower(i + 1) == ValueOf(src[..i + 1]) * m
  {
    SplitSum(sum);
    assert now[..i + 1] == now;
    ValueSnoc(now, i);
    ValueSnoc(src, i);
    PowerStep(i);
    MulStep(ValueOf(before), now[i], carry, sum / BlockBase, sum, BlockPower(i), ValueOf(src[..i]), src[i], m);
  }

  lemma {:induction false} AtLeastSelf(v: nat, m: nat)
    requires m >= 1
    ensures v * m >= v
  {
    MulMono(1, m, v);
  }

  /** k zero blocks. */
  function Zeros(k: nat): (r: seq<Block>)
    ensures |r| == k
  {
    seq(k, _ => 0)
  }

  /** Zero blocks less the first are zero blocks. */
  lemma {:induction false} ZerosDrop(s: seq<Block>, k: nat)
    requires s == Zeros(k) && k > 0
    ensures s[1..] == Zeros(k - 1)
  {
    assert forall j :: 0 <= j < k - 1 ==> s[1..][j] == s[j + 1];
  }

  lemma {:induction false} ZerosValue(k: nat)
    ensures ValueOf(Zeros(k)) == 0
  {
    if k > 0 {
      assert Zeros(k)[..k - 1] == Zeros(k - 1);
      ZerosValue(k - 1);
    }
  }

  /** 1 << bit fits a block. */
  lemma {:induction false} BitInBlock(bit: nat)
    requires bit < 32
    ensures TUMaths.Pow2(bit) < BlockBase
  {
    TUMaths.PowMono(bit + 1, 32);
    Pow2Of32();
  }

  /** Zero blocks under one block holding 1 << bit: the value 2 to the 32 * k + bit. */
  lemma {:induction false} OneBitValue(s: seq<Block>, k: nat, bit: nat)
    requires |s| == k + 1 && s[..k] == Zeros(k) && s[k] == TUMaths.Pow2(bit)
    ensures ValueOf(s) == TUMaths.Pow2(32 * k + bit)
  {
    ValueSnoc(s, k);
    assert s[..k + 1] == s;
    ZerosValue(k);
    BlockPowerIsPow2(k);
    TUMaths.Pow2Add(32 * k, bit);
  }

  // ---------------------------------------------------------------- Mul2 as written

  /**
   * The blocks Mul2 writes as the source spells its loop: each block shifted
   * left by one and or-ed with the carry, and the next carry taken as the
   * 64-bit product shifted right by 31 rather than 32, so that it holds bit 30
   * of the block as well as bit 31. A carry left at the end becomes a new block.
   */
  function Mul2AsWritten(s: seq<bv32>, carry: bv64): (r: seq<bv32>)
    ensures |r| == |s| || |r| == |s| + 1
  {
    if s == [] then
      if carry != 0 then [(carry & 0xFFFF_FFFF) as bv32] else []
    else
      var product := ((s[0] as bv64) << 1) | carry;
      [(product & 0xFFFF_FFFF) as bv32] + Mul2AsWritten(s[1..], product >> 31)
  }

  /**
   * The single block 2 to the 30 doubles, as written, to the blocks of
   * 2 to the 32 plus 2 to the 31 instead of to 2 to the 31.
   */
  lemma {:induction false} Mul2AsWrittenOvershoots()
    ensures Mul2AsWritten([0x4000_0000], 0) == [0x8000_0000, 1]
    ensures ValueOf([0x8000_0000, 1]) == 0x1_8000_0000 != 2 * ValueOf([0x4000_0000])
  {
    var product: bv64 := ((0x4000_0000 as bv64) << 1) | 0;
    assert product == 0x8000_0000 && product >> 31 == 1;
    assert Mul2AsWritten([], 1) == [1];
    ValueOfTwo(0x8000_0000, 1);
    ValueOfOne(0x4000_0000);
  }

  /** Zero blocks below s: s worth BlockPower(count) times as much. */
  lemma {:induction false} ShiftedValue(r: seq<Block>, s: seq<Block>, count: nat)
    requires r == Zeros(count) + s
    ensures ValueOf(r) == ValueOf(s) * BlockPower(count)
  {
    assert r[..count] == Zeros(count) && r[count..] == s;
    ZerosValue(count);
    ValueSplit(r, count);
    var p, v := BlockPower(count), ValueOf(s);
    assert ValueOf(r) == p * v;
    assert p * v == v * p;
  }

  /** Shifting by bits then by blocks is shifting by 32 * blocks + bits. */
  lemma {:induction false} ShiftTotal(v: nat, shift: nat, shiftBlocks: nat, shiftBits: nat)
    requires shiftBlocks == shift / 32 && shiftBits == shift % 32
    ensures v * TUMaths.Pow2(shiftBits) * BlockPower(shiftBlocks) == v * TUMaths.Pow2(shift)
  {
    var a, p := TUMaths.Pow2(shiftBits), BlockPower(shiftBlocks);
    assert p == TUMaths.Pow2(32 * shiftBlocks) by { BlockPowerIsPow2(shiftBlocks); }
    assert TUMaths.Pow2(shift) == a * p by {
      assert shift == shiftBits + 32 * shiftBlocks;
      TUMaths.Pow2Add(shiftBits, 32 * shiftBlocks);
    }
    assert v * a * p == v * (a * p);
  }

  // ---------------------------------------------------------------- ShiftLeft as written

  /**
   * The blocks the loop of ShiftLeft's bit-shifting branch writes, from output
   * block in + 1 down to output block 0 (relative to the whole-block offset),
   * least significant first. As the source spells the loop, the block written
   * after the loop or-s in the low bits kept from block 1, not those of block
   * 0, and block 0's top bits are never written anywhere.
   */
  function ShiftDownAsWritten(b: seq<bv32>, inIndex: nat, highBits: bv32, lowBits: bv32, shift: bv32): (r: seq<bv32>)
    requires inIndex < |b| && 0 < shift < 32
    ensures |r| == inIndex + 2
  {
    if inIndex > 0 then
      var block := b[inIndex];
      var low := block >> (32 - shift);
      ShiftDownAsWritten(b, inIndex - 1, block << shift, low, shift) + [highBits | low]
    else
      [b[0] << shift, highBits | lowBits]
  }

  /**
   * ShiftLeft with shift % 32 != 0, as written: shift / 32 zero blocks, the
   * blocks of ShiftDownAsWritten, and one zero block dropped from the top.
   * The source reads block -1 when the BigInt is empty, so b is not empty.
   */
  function ShiftLeftAsWritten(b: seq<bv32>, shift: nat): (r: seq<bv32>)
    requires |b| > 0 && shift % 32 != 0
  {
    var written := seq(shift / 32, _ => 0) + ShiftDownAsWritten(b, |b| - 1, 0, 0, (shift % 32) as bv32);
    if written[|written| - 1] == 0 then written[..|written| - 1] else written
  }

  /** Shifting the single block 2 to the 31 left by one gives zero as written, not 2 to the 32. */
  lemma {:induction false} ShiftLeftAsWrittenLosesBits()
    ensures ShiftLeftAsWritten([0x8000_0000], 1) == [0]
    ensures 2 * ValueOf([0x8000_0000]) == ValueOf([0, 1]) == 0x1_0000_0000
  {
    assert ShiftDownAsWritten([0x8000_0000], 0, 0, 0, 1) == [0, 0];
    ValueOfOne(0x8000_0000);
    ValueOfTwo(0, 1);
  }

  /** One turn of MulAddRow: block j of the row added in, its carry passed on. */
  lemma {:induction false} MulAddTurn(now: seq<Block>, before: seq<Block>, orig: seq<Block>, row: seq<Block>,
                   j: nat, carry: nat, sum: nat, m: nat)
    requires |now| == j + 1 && now[..j] == before && j < |orig| && j < |row|
    requires ValueOf(before) + carry * BlockPower(j) == ValueOf(orig[..j]) + ValueOf(row[..j]) * m
    requires sum == orig[j] + row[j] * m + carry && now[j] == sum % BlockBase
    ensures ValueOf(now) + (sum / BlockBase) * BlockPower(j + 1) == ValueOf(orig[..j + 1]) + ValueOf(row[..j + 1]) * m
  {
    MulNonNegative(row[j], m);
    MulNonNegative(ValueOf(row[..j]), m);
    var add: nat := orig[j] + row[j] * m;
    CarryTurn(now, before, j, carry, sum, ValueOf(orig[..j]) + ValueOf(row[..j]) * m, add);
    ValueSnoc(orig, j);
    ValueSnoc(row, j);
    RowArith(ValueOf(orig[..j]), ValueOf(row[..j]), orig[j], row[j], m, BlockPower(j));
  }

  /** The arithmetic of MulAddTurn. */
  lemma {:induction false} RowArith(a: int, b: int, x: int, y: int, m: int, p: int)
    ensures (a + b * m) + (x + y * m) * p == (a + x * p) + (b + y * p) * m
  {
    assert (x + y * m) * p == x * p + (y * m) * p;
    assert (b + y * p) * m == b * m + (y * p) * m;
    assert (y * m) * p == (y * p) * m;
  }

  /**
   * Mul's loop invariant: acc holds big times the first i blocks of little,
   * and the blocks above the rows added so far are still zero.
   */
  ghost predicate PartialProduct(acc: seq<Block>, big: seq<Block>, little: seq<Block>, i: nat) {
    i <= |little| && |acc| == |big| + |little| &&
    ValueOf(acc) == ValueOf(big) * ValueOf(little[..i]) &&
    acc[i + |big|..] == Zeros(|acc| - i - |big|)
  }

  /** Zeroed blocks start Mul's loop. */
  lemma {:induction false} StartProduct(acc: seq<Block>, big: seq<Block>, little: seq<Block>)
    requires |acc| == |big| + |little| && acc == Zeros(|acc|)
    ensures PartialProduct(acc, big, little, 0)
  {
    ZerosValue(|acc|);
    assert little[..0] == [];
    assert acc[|big|..] == Zeros(|little|);
  }

  /**
   * Mul's last step: dropping one zero top block from the product keeps its
   * value, and leaves it normalized when both operands are normalized and not zero.
   */
  lemma {:induction false} TrimmedProduct(product: seq<Block>, r: seq<Block>, big: seq<Block>, little: seq<Block>)
    requires |product| == |big| + |little| && ValueOf(product) == ValueOf(big) * ValueOf(little)
    requires if |product| > 0 && product[|product| - 1] == 0 then r == product[..|product| - 1] else r == product
    ensures ValueOf(r) == ValueOf(big) * ValueOf(little)
    ensures IsNormalized(big) && IsNormalized(little) && |big| != 0 && |little| != 0 ==> IsNormalized(r)
  {
    if |product| > 0 && product[|product| - 1] == 0 {
      TopZeroDropped(product);
      if IsNormalized(big) && IsNormalized(little) && |big| != 0 && |little| != 0 {
        ProductNormalized(r, big, little);
      }
    }
  }

  /** Mul's loop after a row: the product grows by big times block i of little at block i. */
  lemma {:induction false} RowAdded(now: seq<Block>, was: seq<Block>, big: seq<Block>, little: seq<Block>, i: nat, carry: nat)
    requires i < |little| && |now| == |was| && PartialProduct(was, big, little, i)
    requires now[..i] == was[..i] && now[i + |big|] == carry
    requires now[i + |big| + 1..] == was[i + |big| + 1..]
    requires ValueOf(now[i..i + |big|]) + carry * BlockPower(|big|) == ValueOf(was[i..i + |big|]) + ValueOf(big) * little[i]
    ensures PartialProduct(now, big, little, i + 1)
  {
    var n := |big|;
    var k := |was| - i - n;
    assert now[i + n + 1..] == Zeros(k - 1) by {
      assert was[i + n + 1..] == was[i + n..][1..];
      ZerosDrop(was[i + n..], k);
    }
    assert ValueOf(now[i + n..]) == carry by {
      assert now[i + n..] == [carry] + now[i + n + 1..];
      CarryOnZeros(now[i + n..], carry, k - 1);
    }
    assert ValueOf(was[i + n..]) == 0 by {
      ZerosValue(k);
    }
    RowValue(now, was, big, little, i, carry);
    assert i + 1 + n == i + n + 1;
  }

  /** The value half of RowAdded, with the blocks above the row already known. */
  lemma {:induction false} RowValue(now: seq<Block>, was: seq<Block>, big: seq<Block>, little: seq<Block>, i: nat, carry: nat)
    requires i < |little| && |now| == |was| == |big| + |little| && now[..i] == was[..i]
    requires ValueOf(was) == ValueOf(big) * ValueOf(little[..i])
    requires ValueOf(now[i + |big|..]) == carry && ValueOf(was[i + |big|..]) == 0
    requires ValueOf(now[i..i + |big|]) + carry * BlockPower(|big|) == ValueOf(was[i..i + |big|]) + ValueOf(big) * little[i]
    ensures ValueOf(now) == ValueOf(big) * ValueOf(little[..i + 1])
  {
    var n := |big|;
    ThreeParts(now, i, n);
    ThreeParts(was, i, n);
    RowTotal(ValueOf(now), ValueOf(was), ValueOf(now[..i]), ValueOf(was[..i]), BlockPower(i),
             ValueOf(now[i..i + n]), ValueOf(was[i..i + n]), BlockPower(n),
             ValueOf(now[i + n..]), ValueOf(was[i + n..]), carry, ValueOf(big), little[i], ValueOf(little[..i]));
    ValueSnoc(little, i);
  }

  /** A block split into low, middle and high parts. */
  lemma {:induction false} ThreeParts(s: seq<Block>, i: nat, len: nat)
    requires i + len <= |s|
    ensures ValueOf(s) == ValueOf(s[..i]) + BlockPower(i) * (ValueOf(s[i..i + len]) + BlockPower(len) * ValueOf(s[i + len..]))
  {
    var mid, high := s[i..i + len], s[i + len..];
    var upper := ValueOf(mid) + BlockPower(len) * ValueOf(high);
    assert ValueOf(s[i..]) == upper by {
      assert s[i..][..len] == mid && s[i..][len..] == high;
      ValueSplit(s[i..], len);
    }
    ValueSplit(s, i);
    Substitute(ValueOf(s), ValueOf(s[..i]), BlockPower(i), ValueOf(s[i..]), upper);
    assert ValueOf(s) == ValueOf(s[..i]) + BlockPower(i) * upper;
    assert upper == ValueOf(s[i..i + len]) + BlockPower(len) * ValueOf(s[i + len..]);
  }

  lemma {:induction false} Substitute(v: int, low: int, p: int, x: int, y: int)
    requires v == low + p * x && x == y
    ensures v == low + p * y
  {
  }

  /** One block over zero blocks is worth that block. */
  lemma {:induction false} CarryOnZeros(t: seq<Block>, carry: nat, k: nat)
    requires t == [carry] + Zeros(k)
    ensures ValueOf(t) == carry
  {
    ValueSplit(t, 1);
    assert t[..1] == [carry] && t[1..] == Zeros(k);
    ValueOfOne(carry);
    ZerosValue(k);
  }

  /** The arithmetic of RowAdded. */
  lemma {:induction false} RowTotal(vNow: nat, vWas: nat, lowNow: nat, lowWas: nat, p: nat, rowNow: nat, rowWas: nat, q: nat,
                 topNow: nat, topWas: nat, carry: nat, big: nat, x: nat, prefix: nat)
    requires vNow == lowNow + p * (rowNow + q * topNow)
    requires vWas == lowWas + p * (rowWas + q * topWas)
    requires lowNow == lowWas && topNow == carry && topWas == 0
    requires rowNow + carry * q == rowWas + big * x
    requires vWas == big * prefix
    ensures vNow == big * (prefix + x * p)
  {
    assert q * carry == carry * q;
    assert vNow == lowWas + p * (rowWas + big * x);
    assert p * (rowWas + big * x) == p * rowWas + big * (x * p);
  }

  /** Mul's loop skipping a zero block of little: the product does not change. */
  lemma {:induction false} PrefixZeroStep(acc: seq<Block>, big: seq<Block>, little: seq<Block>, i: nat)
    requires i < |little| && little[i] == 0 && PartialProduct(acc, big, little, i)
    ensures PartialProduct(acc, big, little, i + 1)
  {
    ValueSnoc(little, i);
    assert acc[i + 1 + |big|..] == acc[i + |big|..][1..];
  }

  /** Dropping a zero top block keeps the value. */
  lemma {:induction false} TopZeroDropped(s: seq<Block>)
    requires |s| > 0 && s[|s| - 1] == 0
    ensures ValueOf(s[..|s| - 1]) == ValueOf(s)
  {
  }

  /**
   * The product of normalized a and b, in |a| + |b| blocks less a zero top one,
   * is normalized: it is at least BlockPower(|a| + |b| - 2).
   */
  lemma {:induction false} ProductNormalized(r: seq<Block>, a: seq<Block>, b: seq<Block>)
    requires IsNormalized(a) && IsNormalized(b) && |a| > 0 && |b| > 0
    requires ValueOf(r) == ValueOf(a) * ValueOf(b) && |r| == |a| + |b| - 1
    ensures IsNormalized(r)
  {
    NormalizedRange(a);
    NormalizedRange(b);
    MulBoth(BlockPower(|a| - 1), ValueOf(a), BlockPower(|b| - 1), ValueOf(b));
    PowerAdd(|a| - 1, |b| - 1);
    NormalizedLower(r);
  }

  lemma {:induction false} MulBoth(a1: nat, a2: nat, b1: nat, b2: nat)
    requires a1 <= a2 && b1 <= b2
    ensures a1 * b1 <= a2 * b2
  {
    MulMono(a1, a2, b1);
    MulMono(b1, b2, a2);
    assert b1 * a2 == a2 * b1 && b2 * a2 == a2 * b2;
  }

  // ---------------------------------------------------------------- Mul as written

  /**
   * One row of Mul's loop as the source spells it: the row for multiplier m
   * is added into acc from block 0, not from the block of the multiplier,
   * and its carry is stored at block |large| rather than above the row.
   */
  function RowAsWritten(acc: seq<int>, large: seq<Block>, m: nat, j: nat, carry: int): (r: seq<int>)
    requires |large| < |acc| && j <= |large|
    ensures |r| == |acc|
    decreases |large| - j
  {
    if j == |large| then acc[|large| := carry % BlockBase]
    else
      var product := acc[j] + large[j] * m + carry;
      RowAsWritten(acc[j := product % BlockBase], large, m, j + 1, product / BlockBase)
  }

  /** The rows of Mul's loop as written, for the blocks of small from i on. */
  function RowsAsWritten(acc: seq<int>, small: seq<Block>, large: seq<Block>, i: nat): (r: seq<int>)
    requires |acc| == |small| + |large| && i <= |small|
    ensures |r| == |acc|
    decreases |small| - i
  {
    if i == |small| then acc
    else
      var next := if small[i] != 0 then RowAsWritten(acc, large, small[i], 0, 0) else acc;
      RowsAsWritten(next, small, large, i + 1)
  }

  /** Mul(result, left, right) as written: zeroed blocks, the rows, one zero top block dropped. */
  function MulAsWritten(left: seq<Block>, right: seq<Block>): seq<int> {
    var small := if |left| < |right| then left else right;
    var large := if |left| < |right| then right else left;
    var len := |left| + |right|;
    var acc := RowsAsWritten(seq(len, _ => 0), small, large, 0);
    if len > 0 && acc[len - 1] == 0 then acc[..len - 1] else acc
  }

  /** 2 to the 32 squared comes out as written as the blocks of 2 to the 32, not 2 to the 64. */
  lemma {:induction false} MulAsWrittenDropsRows()
    ensures MulAsWritten([0, 1], [0, 1]) == [0, 1, 0]
    ensures ValueOf([0, 1]) * ValueOf([0, 1]) == ValueOf([0, 0, 1]) == 0x1_0000_0000_0000_0000
  {
    var large: seq<Block> := [0, 1];
    assert RowsAsWritten([0, 0, 0, 0], [0, 1], large, 1) == RowsAsWritten(RowAsWritten([0, 0, 0, 0], large, 1, 0, 0), [0, 1], large, 2);
    assert RowAsWritten([0, 0, 0, 0], large, 1, 0, 0) == RowAsWritten([0, 0, 0, 0], large, 1, 1, 0);
    assert RowAsWritten([0, 0, 0, 0], large, 1, 1, 0) == RowAsWritten([0, 1, 0, 0], large, 1, 2, 0);
    assert RowAsWritten([0, 1, 0, 0], large, 1, 2, 0) == [0, 1, 0, 0];
    assert seq(4, _ => 0) == [0, 0, 0, 0];
    ValueOfTwo(0, 1);
    var three: seq<Block> := [0, 0, 1];
    ValueSnoc(three, 2);
    assert three[..3] == three && three[..2] == [0, 0];
    ValueOfTwo(0, 0);
  }

  // ---------------------------------------------------------------- DivWithRem_MaxQuotient9

  /** One turn of MulSubtract: block i of the difference written, carry and borrow passed on. */
  lemma {:induction false} SubTurn(now: seq<Block>, before: seq<Block>, orig: seq<Block>, row: seq<Block>, i: nat,
                                   carry: nat, borrow: nat, q: nat, product: nat, difference: int)
    requires |now| == i + 1 && now[..i] == before && i < |orig| && i < |row| && borrow <= 1
    requires ValueOf(before) == ValueOf(orig[..i]) - q * ValueOf(row[..i]) + (carry + borrow) * BlockPower(i)
    requires product == row[i] * q + carry && difference == orig[i] - product % BlockBase - borrow
    requires now[i] == difference % BlockBase
    ensures ValueOf(now) == ValueOf(orig[..i + 1]) - q * ValueOf(row[..i + 1]) +
                            (product / BlockBase + (if difference < 0 then 1 else 0)) * BlockPower(i + 1)
  {
    SplitSum(product);
    var b2 := if difference < 0 then 1 else 0;
    assert now[i] == difference + b2 * BlockBase;
    assert now[..i + 1] == now;
    ValueSnoc(now, i);
    ValueSnoc(orig, i);
    ValueSnoc(row, i);
    PowerStep(i);
    SubArith(ValueOf(before), ValueOf(orig[..i]), ValueOf(row[..i]), BlockPower(i), carry, borrow, orig[i], row[i], q,
             product, product / BlockBase, product % BlockBase, difference, b2, now[i]);
  }

  /** The arithmetic of SubTurn. */
  lemma {:induction false} SubArith(x: int, lowD: int, lowV: int, p: int, c: int, b: int, dI: int, vI: int, q: int,
                                    prod: int, c2: int, low: int, diff: int, b2: int, nb: int)
    requires x == lowD - q * lowV + (c + b) * p
    requires prod == vI * q + c && prod == c2 * BlockBase + low
    requires diff == dI - low - b && nb == diff + b2 * BlockBase
    ensures x + nb * p == (lowD + dI * p) - q * (lowV + vI * p) + (c2 + b2) * (BlockBase * p)
  {
    assert nb * p == dI * p - low * p - b * p + b2 * (BlockBase * p);
    assert low * p == vI * q * p + c * p - c2 * (BlockBase * p);
    assert q * (lowV + vI * p) == q * lowV + vI * q * p;
    assert (c + b) * p == c * p + b * p;
    assert (c2 + b2) * (BlockBase * p) == c2 * (BlockBase * p) + b2 * (BlockBase * p);
  }

  /** A value below BlockPower(|s|) that is x plus a multiple of BlockPower(|s|), for x not negative, is x. */
  lemma {:induction false} NothingLeftOver(s: seq<Block>, x: int, k: nat)
    requires x >= 0 && ValueOf(s) == x + k * BlockPower(|s|)
    ensures k == 0 && ValueOf(s) == x
  {
    ValueBound(s);
    if k != 0 {
      MulMono(1, k, BlockPower(|s|));
    }
  }

  /** Blocks from k on are zero when the value is below BlockPower(k). */
  lemma {:induction false} HighZeros(s: seq<Block>, k: nat)
    requires k <= |s| && ValueOf(s) < BlockPower(k)
    ensures ValueOf(s[..k]) == ValueOf(s)
  {
    ValueSplit(s, k);
    var high := ValueOf(s[k..]);
    assert BlockPower(k) * high < BlockPower(k);
    NotAMultiple(BlockPower(k), high);
  }

  lemma {:induction false} NotAMultiple(p: nat, x: nat)
    requires p * x < p
    ensures x == 0
  {
    if x != 0 {
      MulMono(1, x, p);
    }
  }

  /**
   * The estimate of DivWithRem_MaxQuotient9: with divisor top block v >= 8,
   * dividend top block d in the same position and a true quotient of at most
   * 9, q = d / (v + 1) divisors fit in the dividend and q + 2 do not.
   */
  lemma {:induction false} EstimateQuotient(dividend: seq<Block>, divisor: seq<Block>, q: nat)
    requires |dividend| == |divisor| > 0 && divisor[|divisor| - 1] >= 8
    requires ValueOf(dividend) < 10 * ValueOf(divisor)
    requires q == dividend[|dividend| - 1] / (divisor[|divisor| - 1] as int + 1)
    ensures q * ValueOf(divisor) <= ValueOf(dividend) < (q + 2) * ValueOf(divisor)
    ensures q < 10
  {
    var n := |divisor| - 1;
    var p := BlockPower(n);
    var d, v := dividend[n], divisor[n];
    var lowD, lowV := ValueOf(dividend[..n]), ValueOf(divisor[..n]);
    var dd, vv := ValueOf(dividend), ValueOf(divisor);
    assert dd == lowD + d * p && vv == lowV + v * p && lowD < p && lowV < p by {
      ValueSnoc(dividend, n);
      ValueSnoc(divisor, n);
      assert dividend[..n + 1] == dividend && divisor[..n + 1] == divisor;
      ValueBound(dividend[..n]);
      ValueBound(divisor[..n]);
    }
    assert q * vv <= dd by { FitsBelow(q, lowV, v, p, d, dd, vv); }
    assert vv > 0 by { MulMono(1, v, p); }
    QuotientBounds(dd, vv);
    var big: nat := dd / vv;
    assert big <= 9 by {
      if big >= 10 {
        MulMono(10, big, vv);
      }
    }
    assert big <= q + 1 by {
      QuotientTopBlock(big, vv, v, p, lowV, lowD, d, dd);
      EstimateClose(q, big, d, v);
    }
    assert dd < (q + 2) * vv by { MulMono(big + 1, q + 2, vv); }
    assert q < 10 by {
      if q >= 10 {
        MulMono(10, q, vv);
      }
    }
  }

  /** The quotient of Euclidean division lies between the bounds that define it. */
  /** After subtracting an estimate at most one short, less than two divisors are left. */
  lemma {:induction false} RestBelowTwice(d: int, q: int, v: int)
    requires q * v <= d < (q + 2) * v
    ensures 0 <= d - q * v < v + v && d == v * q + (d - q * v)
  {
    assert (q + 2) * v == q * v + v + v;
  }

  /** Subtracting one more divisor adds one to the quotient. */
  lemma {:induction false} OneMore(d: int, q: int, v: int, before: int, after: int)
    requires d == v * q + before && after == before - v
    ensures d == v * (q + 1) + after
  {
    assert v * (q + 1) == v * q + v;
  }

  lemma {:induction false} QuotientBounds(x: nat, y: nat)
    requires y > 0
    ensures 0 <= x / y && (x / y) * y <= x < (x / y + 1) * y
  {
    assert x == (x / y) * y + x % y;
    assert (x / y + 1) * y == (x / y) * y + y;
  }

  /** q = d / (v + 1) divisors fit: q * (lowV + v * p) <= q * (v + 1) * p <= d * p <= dividend. */
  lemma {:induction false} FitsBelow(q: nat, lowV: nat, v: nat, p: nat, d: nat, dd: nat, vv: nat)
    requires lowV < p && vv == lowV + v * p && dd >= d * p && q == d / (v + 1)
    ensures q * vv <= dd
  {
    assert vv <= (v + 1) * p;
    MulMono(vv, (v + 1) * p, q);
    assert q * (v + 1) <= d;
    MulMono(q * (v + 1), d, p);
    assert vv * q == q * vv;
    assert (v + 1) * p * q == q * (v + 1) * p;
  }

  /** The true quotient times the divisor's top block does not exceed the dividend's top block. */
  lemma {:induction false} QuotientTopBlock(big: nat, vv: nat, v: nat, p: nat, lowV: nat, lowD: nat, d: nat, dd: nat)
    requires p >= 1 && lowD < p && dd == lowD + d * p && vv == lowV + v * p && big * vv <= dd
    ensures big * v <= d
  {
    MulMono(v * p, vv, big);
    assert big * v * p == v * p * big;
    assert big * v * p < (d + 1) * p;
    if big * v > d {
      MulMono(d + 1, big * v, p);
    }
  }

  /** With v >= 8, a quotient of at most 9 and Q * v <= d, Q is at most d / (v + 1) + 1. */
  lemma {:induction false} EstimateClose(q: nat, big: nat, d: nat, v: nat)
    requires v >= 8 && big <= 9 && big * v <= d && q == d / (v + 1)
    ensures big <= q + 1
  {
    assert d < (q + 1) * (v + 1);
    assert (q + 1) * (v + 1) == (q + 1) * v + q + 1;
    assert (q + 2) * v == (q + 1) * v + v;
    if big >= q + 2 {
      MulMono(q + 2, big, v);
    }
  }

  /** A sequence as long as a normalized one and worth at least as much is normalized. */
  lemma {:induction false} GrowthNormalized(r: seq<Block>, s: seq<Block>)
    requires IsNormalized(s) && |r| == |s| && ValueOf(r) >= ValueOf(s)
    ensures IsNormalized(r)
  {
    if |s| > 0 {
      NormalizedRange(s);
      NormalizedLower(r);
    }
  }

  /** Reading GetU32 back: the value modulo BlockBase. */
  lemma {:induction false} GetU32IsLowBlock(b: BigInt)
    requires b.Valid()
    ensures b.GetU32() == b.Value() % BlockBase
  {
    var s := b.Blocks();
    if |s| > 0 {
      ValueSplit(s, 1);
      assert s[..1] == [s[0]];
      assert ValueOf(s[..1]) == s[0];
      TUMaths.DivModUnique(b.Value(), BlockBase, ValueOf(s[1..]), s[0]);
    }
  }

  /** IsZero reads the length: on a normalized BigInt that is the value being 0. */
  lemma {:induction false} IsZeroMeansZero(b: BigInt)
    requires b.Valid() && b.Normalized()
    ensures b.IsZero() <==> b.Value() == 0
  {
    NormalizedRange(b.Blocks());
  }
}
