/*
 * DefaultEncoding::ToUpper / ToLower: upper-casing of a single UTF-32 code
 * point by a short chain of range tests (Latin-1 and Latin Extended-A).
 */
module Encoding {

  /** A `c32` value: an unsigned 32-bit code unit. */
  type CodePoint = c: nat | c < 0x1_0000_0000

  /** The small letters whose capital is exactly 0x20 below them. */
  predicate InLatinSmallBlock(c: CodePoint) {
    (0x61 <= c <= 0x7A) || (0xE0 <= c <= 0xFE)
  }

  /** The Latin Extended-A ranges that alternate capital (even) / small (odd). */
  predicate InAlternatingBlock(c: CodePoint) {
    (0x100 <= c <= 0x12F) || (0x132 <= c <= 0x148) ||
    (0x14A <= c <= 0x17E) || (0x182 <= c <= 0x185)
  }

  /** The code points that have a fixed, explicitly listed capital. */
  predicate HasFixedCapital(c: CodePoint) {
    c == 0x3BC || c == 0x17F || c == 0x253 || c == 0x254 || c == 0x188
  }

  /** The code points ToUpper changes. */
  predicate IsMapped(c: CodePoint) {
    InLatinSmallBlock(c) || HasFixedCapital(c) || (InAlternatingBlock(c) && c % 2 == 1)
  }

  /** DefaultEncoding::ToUpper, range tests in the order the source performs them. */
  function ToUpper(c: CodePoint): (r: CodePoint)
    ensures r <= c
    ensures r == c <==> !IsMapped(c)
  {
    if InLatinSmallBlock(c) then c - 0x20
    else if c == 0x3BC then 0xB5
    else if InAlternatingBlock(c) then (if c % 2 == 0 then c else c - 1)
    else if c == 0x17F then 0x73
    else if c == 0x253 then 0x181
    else if c == 0x254 then 0x186
    else if c == 0x188 then 0x187
    else c
  }

  /** DefaultEncoding::ToLower defers to the base class, which leaves the code point alone. */
  function ToLower(c: CodePoint): (r: CodePoint)
    ensures r == c
  {
    c
  }

  /** The fixed capitals of the source's table. */
  lemma FixedCapitals()
    ensures ToUpper(0x3BC) == 0xB5 && ToUpper(0x17F) == 0x73
    ensures ToUpper(0x253) == 0x181 && ToUpper(0x254) == 0x186 && ToUpper(0x188) == 0x187
  {
  }

  /** Small letters of the Latin-1 blocks move down by 0x20, alternating blocks by one. */
  lemma ToUpperBlocks(c: CodePoint)
    ensures InLatinSmallBlock(c) ==> ToUpper(c) == c - 0x20
    ensures InAlternatingBlock(c) ==> ToUpper(c) == c - c % 2
  {
  }

  /**
   * Upper-casing is idempotent everywhere except at LATIN SMALL LETTER LONG S,
   * whose listed capital 0x73 is itself a small letter.
   */
  lemma ToUpperIdempotentExceptLongS(c: CodePoint)
    requires c != 0x17F
    ensures ToUpper(ToUpper(c)) == ToUpper(c)
  {
  }

  /** The exception: 0x17F upper-cases to 's', which upper-cases again to 'S'. */
  lemma LongSNotIdempotent()
    ensures ToUpper(0x17F) == 0x73 && ToUpper(ToUpper(0x17F)) == 0x53
  {
  }

  /** ToUpper sends DIVISION SIGN 0xF7 to MULTIPLICATION SIGN 0xD7, neither of which is a letter. */
  lemma DivisionSignMapped()
    ensures ToUpper(0xF7) == 0xD7
  {
  }

  /**
   * The evidently intended table: LONG S capitalises to 'S' (0x53) and the
   * division sign inside the 0xE0-0xFE block is left alone.
   */
  function ToUpperCorrected(c: CodePoint): (r: CodePoint)
    ensures r <= c
    ensures c != 0x17F && c != 0xF7 ==> r == ToUpper(c)
    ensures c == 0xF7 ==> r == c
  {
    if c == 0xF7 then c
    else if c == 0x17F then 0x53
    else ToUpper(c)
  }

  /** The corrected table is idempotent on every code point. */
  lemma ToUpperCorrectedIdempotent(c: CodePoint)
    ensures ToUpperCorrected(ToUpperCorrected(c)) == ToUpperCorrected(c)
  {
  }
}
