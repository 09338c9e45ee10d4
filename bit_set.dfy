/*
 * BitSet (BitSet.hpp): a fixed array of 64-bit words; bit i lives in word
 * i / 64 at position i % 64.  At, Set and Flip check the word index against
 * the array and ignore an index beyond it.
 *
 * A word is modelled by its 64 bits: position k of a Word is the bit of
 * place value 2^k, so `word & (1 << k)` is w[k], `|=` sets it, `&= ~`
 * clears it and `^=` toggles it.
 */
module BitSets {

  /** BIT_COUNT: the bits in one uSys word. */
  const WordBits: nat := 64

  type Word = w: seq<bool> | |w| == WordBits witness seq(WordBits, _ => false)

  /** The word memset to 0xFF bytes (all ones) or to 0x00 bytes. */
  function Fill(v: bool): (r: Word)
    ensures forall k :: 0 <= k < WordBits ==> r[k] == v
  {
    seq(WordBits, _ => v)
  }

  /** The bit At reads: false when the index's word is beyond the array. */
  function Get(words: seq<Word>, index: nat): (r: bool)
    ensures r ==> index / WordBits < |words|
  {
    index / WordBits < |words| && words[index / WordBits][index % WordBits]
  }

  /** The words after Set(index, v). */
  function Assigned(words: seq<Word>, index: nat, v: bool): (r: seq<Word>)
    ensures |r| == |words|
  {
    var i := index / WordBits;
    if i >= |words| then words else words[i := words[i][index % WordBits := v]]
  }

  /** The words after Flip(index). */
  function Flipped(words: seq<Word>, index: nat): (r: seq<Word>)
    ensures |r| == |words|
  {
    var i, b := index / WordBits, index % WordBits;
    if i >= |words| then words else words[i := words[i][b := !words[i][b]]]
  }

  /** The words the constructor allocates: bitCount / 64 + 1 of them, every bit initialValue. */
  function Filled(bitCount: nat, initialValue: bool): (r: seq<Word>)
    ensures |r| == bitCount / WordBits + 1
  {
    seq(bitCount / WordBits + 1, _ => Fill(initialValue))
  }

  // ---------------------------------------------------------------------
  // Properties of the bit set operations

  lemma SameWordOtherPosition(i: nat, j: nat)
    requires i != j && i / WordBits == j / WordBits
    ensures i % WordBits != j % WordBits
  {
  }

  /** After Set(i, v), the bit at i reads v when i's word is in range. */
  lemma SetThenGet(words: seq<Word>, i: nat, v: bool)
    requires i / WordBits < |words|
    ensures Get(Assigned(words, i, v), i) == v
  {
  }

  /** Set changes no bit but bit i. */
  lemma SetKeepsOthers(words: seq<Word>, i: nat, j: nat, v: bool)
    requires i != j
    ensures Get(Assigned(words, i, v), j) == Get(words, j)
  {
    if i / WordBits == j / WordBits {
      SameWordOtherPosition(i, j);
    }
  }

  /** After Flip(i), the bit at i reads the opposite when i's word is in range. */
  lemma FlipThenGet(words: seq<Word>, i: nat)
    requires i / WordBits < |words|
    ensures Get(Flipped(words, i), i) == !Get(words, i)
  {
  }

  /** Flip changes no bit but bit i. */
  lemma FlipKeepsOthers(words: seq<Word>, i: nat, j: nat)
    requires i != j
    ensures Get(Flipped(words, i), j) == Get(words, j)
  {
    if i / WordBits == j / WordBits {
      SameWordOtherPosition(i, j);
    }
  }

  /** Flipping the same bit twice restores the words. */
  lemma FlipTwice(words: seq<Word>, i: nat)
    ensures Flipped(Flipped(words, i), i) == words
  {
    var wi, b := i / WordBits, i % WordBits;
    if wi < |words| {
      assert words[wi][b := !words[wi][b]][b := words[wi][b]] == words[wi];
    }
  }

  /** With i's word out of range, Set and Flip leave the words as they were and the bit reads false. */
  lemma OutOfRange(words: seq<Word>, i: nat, v: bool)
    requires i / WordBits >= |words|
    ensures Assigned(words, i, v) == words && Flipped(words, i) == words
    ensures !Get(words, i)
  {
  }

  /** Every bit of a new bit set reads its initial value, up to the end of the last word. */
  lemma FilledGet(bitCount: nat, initialValue: bool, i: nat)
    requires i / WordBits <= bitCount / WordBits
    ensures Get(Filled(bitCount, initialValue), i) == initialValue
  {
  }

  /**
   * The bits past bitCount in the last word are readable: a set of 10 bits
   * built with initial value true reads true at index 63, and index 64 is
   * beyond the array.
   */
  lemma PaddingReadable()
    ensures Get(Filled(10, true), 63)
    ensures !Get(Filled(10, true), 64)
  {
    FilledGet(10, true, 63);
  }

  // ---------------------------------------------------------------------
  // The bit set object

  class BitSet {
    /** m_BitCount. */
    const bitCount: nat
    /** m_Bits. */
    const bits: array<Word>

    constructor (bitCount: nat, initialValue: bool)
      ensures this.bitCount == bitCount
      ensures bits[..] == Filled(bitCount, initialValue)
    {
      this.bitCount := bitCount;
      var fill := Fill(initialValue);
      bits := new Word[bitCount / WordBits + 1](_ => fill);
    }

    method At(index: nat) returns (r: bool)
      ensures r == Get(bits[..], index)
    {
      var wordIndex, bitIndex := index / WordBits, index % WordBits;
      if wordIndex >= bits.Length {
        return false;
      }
      r := bits[wordIndex][bitIndex];
    }

    method Set(index: nat, value: bool)
      modifies bits
      ensures bits[..] == Assigned(old(bits[..]), index, value)
    {
      var wordIndex, bitIndex := index / WordBits, index % WordBits;
      if wordIndex >= bits.Length {
        return;
      }
      bits[wordIndex] := bits[wordIndex][bitIndex := value];
    }

    method Unset(index: nat)
      modifies bits
      ensures bits[..] == Assigned(old(bits[..]), index, false)
    {
      Set(index, false);
    }

    method Flip(index: nat)
      modifies bits
      ensures bits[..] == Flipped(old(bits[..]), index)
    {
      var wordIndex, bitIndex := index / WordBits, index % WordBits;
      if wordIndex >= bits.Length {
        return;
      }
      bits[wordIndex] := bits[wordIndex][bitIndex := !bits[wordIndex][bitIndex]];
    }
  }
}
