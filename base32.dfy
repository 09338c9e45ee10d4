/*
 * Base32Codec (Base32.hpp): the character maps, the length helpers and the
 * encoding Transform, following section 6 of RFC 4648.
 *
 * Bit shifts and masks on bytes are written as the equivalent div and mod;
 * lengths are 64-bit (uSys) and the length helpers wrap as the C++
 * arithmetic does. The decoding Transform is not part of this model.
 */
module Base32 {

  import opened Wrappers
  import TUMaths
  import Base64

  type Byte = Base64.Byte
  type U64 = TUMaths.U64

  // ---------------------------------------------------------------- character maps

  /** IsBase32Char: 'A'..'Z' and '2'..'7'. */
  predicate IsBase32Char(c: char) {
    ('A' <= c <= 'Z') || ('2' <= c <= '7')
  }

  /** CHAR_MAP[i]: 'A'..'Z', then '2'..'7'. */
  function CharMap(i: Byte): char
    requires i < 32
  {
    if i < 26 then ('A' as int + i) as char else ('2' as int + (i - 26)) as char
  }

  /** GetBase32Char: '\0' when any of the top three bits (mask 0xE0) is set. */
  function GetBase32Char(v: Byte): char {
    if v >= 32 then '\0' else CharMap(v)
  }

  /** GetBase32Bits: the 5-bit value of an alphabet character, 0xFF otherwise. */
  function GetBase32Bits(c: char): (r: Byte)
    ensures r < 32 || r == 0xFF
  {
    if 'A' <= c <= 'Z' then c as int - 'A' as int
    else if '2' <= c <= '7' then c as int - '2' as int + 26
    else 0xFF
  }

  /** GetBase32Char yields '\0' exactly for the values with a top bit set. */
  lemma CharOfLargeValue(v: Byte)
    ensures GetBase32Char(v) == '\0' <==> v >= 32
  {
  }

  /** Every 5-bit value survives the trip through its character. */
  lemma BitsOfChar(v: Byte)
    requires v < 32
    ensures IsBase32Char(GetBase32Char(v))
    ensures GetBase32Bits(GetBase32Char(v)) == v
  {
  }

  /** Every alphabet character survives the trip through its value. */
  lemma CharOfBits(c: char)
    requires IsBase32Char(c)
    ensures GetBase32Bits(c) < 32
    ensures GetBase32Char(GetBase32Bits(c)) == c
  {
  }

  /** IsBase32Char accepts exactly the characters of CHAR_MAP, and GetBase32Bits rejects the rest. */
  lemma AlphabetIsCharMap(c: char)
    ensures IsBase32Char(c) <==> exists v: Byte :: v < 32 && GetBase32Char(v) == c
    ensures GetBase32Bits(c) == 0xFF <==> !IsBase32Char(c)
  {
    if IsBase32Char(c) {
      CharOfBits(c);
    }
  }

  // ---------------------------------------------------------------- length helpers

  /** `1 + ((byteCount * 8 - 1) / 5)` in 64-bit arithmetic. */
  function RequiredLengthWithoutPadding(byteCount: U64): U64 {
    Base64.Wrap(1 + Base64.Wrap(Base64.Wrap(byteCount * 8) - 1) / 5)
  }

  /** RequiredLengthWithPadding as written: the unpadded length rounded up to a multiple of 5. */
  function RequiredLengthWithPaddingAsWritten(byteCount: U64): U64 {
    TUMaths.AlignToAny(RequiredLengthWithoutPadding(byteCount), 5)
  }

  /** RequiredLengthWithPaddingAndTrailer as written: seven more on an 8-aligned length, else aligned to 5. */
  function RequiredLengthWithPaddingAndTrailerAsWritten(byteCount: U64): U64 {
    var requiredLength := RequiredLengthWithoutPadding(byteCount);
    if requiredLength % 8 == 0 then Base64.Wrap(requiredLength + 7) else TUMaths.AlignToAny(requiredLength, 5)
  }

  /** The padded length the encoder needs: the unpadded length rounded up to a multiple of 8. */
  function RequiredLengthWithPadding(byteCount: U64): U64 {
    TUMaths.AlignTo(RequiredLengthWithoutPadding(byteCount), 8)
  }

  /** The trailer variant with the same correction: seven more on an 8-aligned length, else aligned to 8. */
  function RequiredLengthWithPaddingAndTrailer(byteCount: U64): U64 {
    var requiredLength := RequiredLengthWithoutPadding(byteCount);
    if requiredLength % 8 == 0 then Base64.Wrap(requiredLength + 7) else TUMaths.AlignTo(requiredLength, 8)
  }

  /** `(stringLength * 5) / 8` in 64-bit arithmetic. */
  function NumBytesWithoutPadding(stringLength: U64): U64 {
    Base64.Wrap(stringLength * 5) / 8
  }

  /** Byte counts small enough that no length computation wraps. */
  const MaxByteCount: nat := 0x1000_0000_0000_0000

  /** The length the encoding Transform demands, as written. */
  function RequiredLengthAsWritten(byteCount: U64, pad: bool, trail: bool): U64 {
    if pad then
      (if trail then RequiredLengthWithPaddingAndTrailerAsWritten(byteCount)
       else RequiredLengthWithPaddingAsWritten(byteCount))
    else RequiredLengthWithoutPadding(byteCount)
  }

  /** The length the encoding Transform demands, with the padded lengths aligned to 8. */
  function RequiredLength(byteCount: U64, pad: bool, trail: bool): U64 {
    if pad then
      (if trail then RequiredLengthWithPaddingAndTrailer(byteCount) else RequiredLengthWithPadding(byteCount))
    else RequiredLengthWithoutPadding(byteCount)
  }

  /** The unpadded length is ceil(8n / 5). */
  lemma RequiredLengthWithoutPaddingIsCeiling(n: U64)
    requires 1 <= n < MaxByteCount
    ensures 5 * (RequiredLengthWithoutPadding(n) - 1) < 8 * n <= 5 * RequiredLengthWithoutPadding(n)
    ensures RequiredLengthWithoutPadding(n) == (8 * n + 4) / 5
  {
  }

  /** For an empty stream the subtraction wraps and the "required" length is huge. */
  lemma RequiredLengthOfNothing()
    ensures RequiredLengthWithoutPadding(0) == 0x3333_3333_3333_3334
  {
  }

  /** A final group of 1, 2, 3, 4 or 5 bytes takes 2, 4, 5, 7 or 8 characters. */
  lemma RequiredLengthExamples()
    ensures RequiredLengthWithoutPadding(1) == 2
    ensures RequiredLengthWithoutPadding(2) == 4
    ensures RequiredLengthWithoutPadding(3) == 5
    ensures RequiredLengthWithoutPadding(4) == 7
    ensures RequiredLengthWithoutPadding(5) == 8
  {
  }

  /** NumBytesWithoutPadding(L) = floor(5L / 8). */
  lemma NumBytesIsFloor(stringLength: U64)
    requires stringLength < MaxByteCount
    ensures 8 * NumBytesWithoutPadding(stringLength) <= 5 * stringLength < 8 * NumBytesWithoutPadding(stringLength) + 8
  {
  }

  /** AlignTo with alignment 8 rounds up to the next multiple of 8. */
  lemma AlignToEight(val: U64)
    requires val + 8 < TUMaths.TwoTo64
    ensures TUMaths.AlignTo(val, 8) == (val + 7) / 8 * 8
  {
    assert TUMaths.Pow2(3) == 8;
    TUMaths.AlignToPow2(val, 3);
    TUMaths.AlignToIsLeast(val, 3, (val + 7) / 8 * 8);
  }

  // ---------------------------------------------------------------- encoding, specified

  /**
   * The eight 5-bit values of a group of five bytes, most significant first:
   * b0 >> 3, ((b0 & 0x7) << 2) | (b1 >> 6), (b1 >> 1) & 0x1F,
   * ((b1 & 0x1) << 4) | (b2 >> 4), ((b2 & 0xF) << 1) | (b3 >> 7),
   * (b3 >> 2) & 0x1F, ((b3 & 0x3) << 3) | (b4 >> 5), b4 & 0x1F.
   */
  function Quintets(b0: Byte, b1: Byte, b2: Byte, b3: Byte, b4: Byte): seq<Byte> {
    [b0 / 8, (b0 % 8) * 4 + b1 / 64, (b1 / 2) % 32, (b1 % 2) * 16 + b2 / 16,
     (b2 % 16) * 2 + b3 / 128, (b3 / 4) % 32, (b3 % 4) * 8 + b4 / 32, b4 % 32]
  }

  /** The k-th byte of a group, zero past its end. */
  function At(b: seq<Byte>, k: nat): Byte {
    if k < |b| then b[k] else 0
  }

  /** The characters of a stream of n bytes, before any padding: ceil(8n / 5). */
  function DataLength(n: nat): nat {
    (8 * n + 4) / 5
  }

  /** The eight characters of the eight 5-bit values of a group. */
  function GroupChars(q: seq<Byte>): (r: seq<char>)
    requires |q| == 8
    ensures |r| == 8
  {
    [GetBase32Char(q[0]), GetBase32Char(q[1]), GetBase32Char(q[2]), GetBase32Char(q[3]),
     GetBase32Char(q[4]), GetBase32Char(q[5]), GetBase32Char(q[6]), GetBase32Char(q[7])]
  }

  /**
   * The characters of a group of one to five bytes: those of the bytes
   * extended with zeros, cut to the ceil(8n / 5) characters the group takes.
   */
  function Group(b: seq<Byte>): (r: seq<char>)
    requires 1 <= |b| <= 5
    ensures |r| == DataLength(|b|)
  {
    GroupChars(Quintets(At(b, 0), At(b, 1), At(b, 2), At(b, 3), At(b, 4)))[..DataLength(|b|)]
  }

  /** n (at most seven) copies of '='. */
  function Padding(n: nat): (r: seq<char>)
    requires n <= 7
    ensures |r| == n && forall i :: 0 <= i < n ==> r[i] == '='
  {
    "======="[..n]
  }

  /**
   * The '=' after the final group of a stream of n bytes: with pad, 6, 4, 3 or
   * 1 after a group of 1, 2, 3 or 4 bytes; with trail, 7 after a full group.
   */
  function PadsFor(n: nat, pad: bool, trail: bool): (r: nat)
    ensures r <= 7
  {
    if n % 5 == 0 then (if trail then 7 else 0)
    else if !pad then 0
    else if n % 5 == 1 then 6
    else if n % 5 == 2 then 4
    else if n % 5 == 3 then 3
    else 1
  }

  /** The last group of a stream, with the padding or trailer after it. */
  function EncodeLast(b: seq<Byte>, pad: bool, trail: bool): seq<char>
    requires |b| <= 5
  {
    if |b| == 0 then [] else Group(b) + Padding(PadsFor(|b|, pad, trail))
  }

  /** The text the encoding Transform writes, group by group. */
  function Encode(b: seq<Byte>, pad: bool, trail: bool): seq<char>
    decreases |b|
  {
    if |b| <= 5 then EncodeLast(b, pad, trail)
    else Group(b[..5]) + Encode(b[5..], pad, trail)
  }

  lemma EncodeSplits(b: seq<Byte>, pad: bool, trail: bool)
    requires |b| > 5
    ensures Encode(b, pad, trail) == Group(b[..5]) + Encode(b[5..], pad, trail)
  {
  }

  /**
   * Every encoding is its unpadded encoding followed by the padding, and the
   * unpadded encoding is ceil(8n/5) characters long.
   */
  lemma {:induction false} EncodeIsDataThenPadding(b: seq<Byte>, pad: bool, trail: bool)
    requires |b| >= 1
    ensures |Encode(b, false, false)| == DataLength(|b|)
    ensures Encode(b, pad, trail) == Encode(b, false, false) + Padding(PadsFor(|b|, pad, trail))
    decreases |b|
  {
    var p := Padding(PadsFor(|b|, pad, trail));
    if |b| > 5 {
      var g, d', e' := Group(b[..5]), Encode(b[5..], false, false), Encode(b[5..], pad, trail);
      GroupStep(|b|, pad, trail);
      assert e' == d' + p && |d'| == DataLength(|b| - 5) by {
        EncodeIsDataThenPadding(b[5..], pad, trail);
      }
      assert Encode(b, pad, trail) == g + e' by { EncodeSplits(b, pad, trail); }
      assert Encode(b, false, false) == g + d' by { EncodeSplits(b, false, false); }
      AppendRegroup(g, d', p);
    } else {
      assert PadsFor(|b|, false, false) == 0;
    }
  }

  /** Five bytes more take eight characters more and leave the padding as it is. */
  lemma GroupStep(n: nat, pad: bool, trail: bool)
    requires n >= 5
    ensures PadsFor(n, pad, trail) == PadsFor(n - 5, pad, trail)
    ensures DataLength(n) == 8 + DataLength(n - 5)
  {
    TUMaths.DivModUnique(n, 5, (n - 5) / 5 + 1, (n - 5) % 5);
    TUMaths.DivModUnique(8 * n + 4, 5, (8 * (n - 5) + 4) / 5 + 8, (8 * (n - 5) + 4) % 5);
  }

  /** The length of an encoding: ceil(8n/5) characters, then the padding. */
  lemma EncodeLength(b: seq<Byte>, pad: bool, trail: bool)
    requires |b| >= 1
    ensures |Encode(b, pad, trail)| == DataLength(|b|) + PadsFor(|b|, pad, trail)
  {
    EncodeIsDataThenPadding(b, pad, trail);
  }

  /** The padding completes the unpadded length to a multiple of 8, or adds the trailer of seven. */
  lemma PaddingArithmetic(n: nat)
    requires n >= 1
    ensures var u := DataLength(n);
      u + PadsFor(n, true, false) == (u + 7) / 8 * 8 &&
      u + PadsFor(n, true, true) == (if u % 8 == 0 then u + 7 else (u + 7) / 8 * 8)
  {
    var q, r := n / 5, n % 5;
    var c := if r == 0 then 0 else if r == 1 then 2 else if r == 2 then 4 else if r == 3 then 5 else 7;
    var u := DataLength(n);
    TUMaths.DivModUnique(8 * n + 4, 5, 8 * q + c, [4, 2, 0, 3, 1][r]);
    TUMaths.DivModUnique(u, 8, q, c);
    TUMaths.DivModUnique(u + 7, 8, q + (if r == 0 then 0 else 1), (c + 7) % 8);
  }

  /** RequiredLength is ceil(8n/5) plus the padding the encoder writes. */
  lemma RequiredLengthOfCount(n: U64, pad: bool, trail: bool)
    requires 1 <= n < MaxByteCount && (pad || !trail)
    ensures RequiredLength(n, pad, trail) == DataLength(n) + PadsFor(n, pad, trail)
  {
    RequiredLengthWithoutPaddingIsCeiling(n);
    if pad {
      PaddingArithmetic(n);
      AlignToEight(RequiredLengthWithoutPadding(n));
    }
  }

  /** The length the Transform checks the output buffer against is exactly the length of the encoding. */
  lemma RequiredLengthIsEncodedLength(b: seq<Byte>, pad: bool, trail: bool)
    requires 1 <= |b| < MaxByteCount && (pad || !trail)
    ensures RequiredLength(|b|, pad, trail) == |Encode(b, pad, trail)|
  {
    EncodeLength(b, pad, trail);
    RequiredLengthOfCount(|b|, pad, trail);
  }

  /**
   * As written, the padded length is aligned to 5 rather than 8: for a single
   * byte with padding the Transform accepts a buffer of 5 characters and then
   * writes 8 into it; with the trailer likewise.
   */
  lemma PaddedLengthTooShort(b0: Byte)
    ensures RequiredLengthAsWritten(1, true, false) == 5
    ensures RequiredLengthAsWritten(1, true, true) == 5
    ensures |Encode([b0], true, false)| == 8 && |Encode([b0], true, true)| == 8
  {
    assert RequiredLengthWithoutPadding(1) == 2 by { RequiredLengthExamples(); }
    assert TUMaths.AlignToAny(2, 5) == 5;
    EncodeLength([b0], true, false);
    EncodeLength([b0], true, true);
  }

  /** The examples of section 10 of RFC 4648. */
  lemma EncodeExamples()
    ensures Encode([0x66], true, false) == "MY======"
    ensures Encode([0x66, 0x6F, 0x6F, 0x62], true, false) == "MZXW6YQ="
    ensures Encode([0x66, 0x6F, 0x6F, 0x62, 0x61], true, false) == "MZXW6YTB"
  {
    GroupExampleF([0x66]);
    GroupExampleFoob([0x66, 0x6F, 0x6F, 0x62]);
    GroupExampleFooba([0x66, 0x6F, 0x6F, 0x62, 0x61]);
  }

  /** The trailer after a full last group, and an unpadded stream of two groups. */
  lemma EncodeTrailerExamples()
    ensures Encode([0x66, 0x6F, 0x6F, 0x62, 0x61], true, true) == "MZXW6YTB======="
    ensures Encode([0x66, 0x6F, 0x6F, 0x62, 0x61, 0x72], false, false) == "MZXW6YTBOI"
  {
    GroupExampleFooba([0x66, 0x6F, 0x6F, 0x62, 0x61]);
    GroupExampleR([0x72]);
    assert [0x66, 0x6F, 0x6F, 0x62, 0x61, 0x72][..5] == [0x66, 0x6F, 0x6F, 0x62, 0x61];
    assert [0x66, 0x6F, 0x6F, 0x62, 0x61, 0x72][5..] == [0x72];
  }

  /** The first |t| characters of a group, read off the 5-bit values s that start it. */
  lemma GroupCharsOf(q: seq<Byte>, s: seq<Byte>, t: string)
    requires |q| == 8 && |s| == |t| <= 8 && s == q[..|s|]
    requires forall k :: 0 <= k < |s| ==> GetBase32Char(s[k]) == t[k]
    ensures GroupChars(q)[..|t|] == t
  {
  }

  /** A group is the cut of the characters of its bytes extended with zeros. */
  lemma GroupOfBytes(b: seq<Byte>, b0: Byte, b1: Byte, b2: Byte, b3: Byte, b4: Byte)
    requires 1 <= |b| <= 5
    requires b0 == At(b, 0) && b1 == At(b, 1) && b2 == At(b, 2) && b3 == At(b, 3) && b4 == At(b, 4)
    ensures Group(b) == GroupChars(Quintets(b0, b1, b2, b3, b4))[..DataLength(|b|)]
  {
  }

  lemma GroupExampleF(b: seq<Byte>)
    requires b == [0x66]
    ensures Group(b) == "MY"
  {
    var q := Quintets(0x66, 0, 0, 0, 0);
    assert GroupChars(q)[..2] == "MY" by {
      assert q[..2] == [12, 24];
      GroupCharsOf(q, [12, 24], "MY");
    }
    assert Group(b) == GroupChars(q)[..2] by {
      GroupOfBytes(b, 0x66, 0, 0, 0, 0);
      assert DataLength(1) == 2;
    }
  }

  lemma GroupExampleFoob(b: seq<Byte>)
    requires b == [0x66, 0x6F, 0x6F, 0x62]
    ensures Group(b) == "MZXW6YQ"
  {
    var q := Quintets(0x66, 0x6F, 0x6F, 0x62, 0);
    assert GroupChars(q)[..7] == "MZXW6YQ" by {
      assert q[..7] == [12, 25, 23, 22, 30, 24, 16];
      GroupCharsOf(q, [12, 25, 23, 22, 30, 24, 16], "MZXW6YQ");
    }
    assert Group(b) == GroupChars(q)[..7] by {
      GroupOfBytes(b, 0x66, 0x6F, 0x6F, 0x62, 0);
      assert DataLength(4) == 7;
    }
  }

  lemma GroupExampleFooba(b: seq<Byte>)
    requires b == [0x66, 0x6F, 0x6F, 0x62, 0x61]
    ensures Group(b) == "MZXW6YTB"
  {
    var q := Quintets(0x66, 0x6F, 0x6F, 0x62, 0x61);
    assert GroupChars(q)[..8] == "MZXW6YTB" by {
      assert q[..8] == [12, 25, 23, 22, 30, 24, 19, 1];
      GroupCharsOf(q, [12, 25, 23, 22, 30, 24, 19, 1], "MZXW6YTB");
    }
    assert Group(b) == GroupChars(q)[..8] by {
      GroupOfBytes(b, 0x66, 0x6F, 0x6F, 0x62, 0x61);
      assert DataLength(5) == 8;
    }
  }

  lemma GroupExampleR(b: seq<Byte>)
    requires b == [0x72]
    ensures Group(b) == "OI"
  {
    var q := Quintets(0x72, 0, 0, 0, 0);
    assert GroupChars(q)[..2] == "OI" by {
      assert q[..2] == [14, 8];
      GroupCharsOf(q, [14, 8], "OI");
    }
    assert Group(b) == GroupChars(q)[..2] by {
      GroupOfBytes(b, 0x72, 0, 0, 0, 0);
      assert DataLength(1) == 2;
    }
  }

  // ---------------------------------------------------------------- the bits of a group

  /** The five bytes a group of eight 5-bit values carries, most significant first. */
  function BytesOf(q: seq<Byte>): seq<Byte>
    requires |q| == 8 && forall k :: 0 <= k < 8 ==> q[k] < 32
  {
    [q[0] * 8 + q[1] / 4, (q[1] % 4) * 64 + q[2] * 2 + q[3] / 16, (q[3] % 16) * 16 + q[4] / 2,
     (q[4] % 2) * 128 + q[5] * 4 + q[6] / 8, (q[6] % 8) * 32 + q[7]]
  }

  /** The 40 bits of a group are those of its eight 5-bit values, most significant first. */
  lemma GroupKeepsBits(b0: Byte, b1: Byte, b2: Byte, b3: Byte, b4: Byte)
    ensures var q: seq<int> := Quintets(b0, b1, b2, b3, b4);
      b0 * 0x1_0000_0000 + b1 * 0x100_0000 + b2 * 0x1_0000 + b3 * 0x100 + b4 ==
      q[0] * 0x8_0000_0000 + q[1] * 0x4000_0000 + q[2] * 0x200_0000 + q[3] * 0x10_0000 +
      q[4] * 0x8000 + q[5] * 0x400 + q[6] * 0x20 + q[7]
  {
    // Each byte splits into the pieces its 5-bit values take; what is left is linear.
    assert b0 == 8 * (b0 / 8) + b0 % 8;
    assert b1 == 64 * (b1 / 64) + 2 * ((b1 / 2) % 32) + b1 % 2 by {
      var h := b1 / 2;
      TUMaths.DivModUnique(b1, 64, h / 32, 2 * (h % 32) + b1 % 2);
    }
    assert b2 == 16 * (b2 / 16) + b2 % 16;
    assert b3 == 128 * (b3 / 128) + 4 * ((b3 / 4) % 32) + b3 % 4 by {
      var h := b3 / 4;
      TUMaths.DivModUnique(b3, 128, h / 32, 4 * (h % 32) + b3 % 4);
    }
    assert b4 == 32 * (b4 / 32) + b4 % 32;
  }

  /** The bytes come back from the 5-bit values of their group. */
  lemma BytesOfQuintets(b0: Byte, b1: Byte, b2: Byte, b3: Byte, b4: Byte)
    ensures var q := Quintets(b0, b1, b2, b3, b4);
      (forall k :: 0 <= k < 8 ==> q[k] < 32) && BytesOf(q) == [b0, b1, b2, b3, b4]
  {
    var q := Quintets(b0, b1, b2, b3, b4);
    assert q[1] / 4 == b0 % 8 && q[1] % 4 == b1 / 64 by {
      TUMaths.DivModUnique(q[1], 4, b0 % 8, b1 / 64);
    }
    assert q[3] / 16 == b1 % 2 && q[3] % 16 == b2 / 16 by {
      TUMaths.DivModUnique(q[3], 16, b1 % 2, b2 / 16);
    }
    assert q[4] / 2 == b2 % 16 && q[4] % 2 == b3 / 128 by {
      TUMaths.DivModUnique(q[4], 2, b2 % 16, b3 / 128);
    }
    assert q[6] / 8 == b3 % 4 && q[6] % 8 == b4 / 32 by {
      TUMaths.DivModUnique(q[6], 8, b3 % 4, b4 / 32);
    }
    assert b1 == (b1 / 64) * 64 + q[2] * 2 + b1 % 2 by {
      var h := b1 / 2;
      TUMaths.DivModUnique(b1, 64, h / 32, 2 * (h % 32) + b1 % 2);
    }
    assert b3 == (b3 / 128) * 128 + q[5] * 4 + b3 % 4 by {
      var h := b3 / 4;
      TUMaths.DivModUnique(b3, 128, h / 32, 4 * (h % 32) + b3 % 4);
    }
  }

  // ---------------------------------------------------------------- a reference decoder

  predicate AllBase32(t: seq<char>) {
    forall k :: 0 <= k < |t| ==> IsBase32Char(t[k])
  }

  /** The 5-bit value of the k-th character of a chunk, zero past its end. */
  function ValueAt(t: seq<char>, k: nat): (r: Byte)
    requires AllBase32(t)
    ensures r < 32
  {
    if k < |t| then GetBase32Bits(t[k]) else 0
  }

  /** The bytes of a chunk of at most eight unpadded characters: floor(5L/8) of them. */
  function DecodeChunk(t: seq<char>): seq<Byte>
    requires |t| <= 8 && AllBase32(t)
  {
    BytesOf([ValueAt(t, 0), ValueAt(t, 1), ValueAt(t, 2), ValueAt(t, 3),
             ValueAt(t, 4), ValueAt(t, 5), ValueAt(t, 6), ValueAt(t, 7)])[..5 * |t| / 8]
  }

  /** Decoding of unpadded text, eight characters at a time (the decoding Transform is not modelled). */
  function DecodeData(t: seq<char>): seq<Byte>
    requires AllBase32(t)
    decreases |t|
  {
    if |t| <= 8 then DecodeChunk(t) else DecodeChunk(t[..8]) + DecodeData(t[8..])
  }

  /** The 5-bit values past the characters a short group takes come from the zero extension only. */
  lemma ZeroTail(b: seq<Byte>)
    requires 1 <= |b| <= 5
    ensures var q := Quintets(At(b, 0), At(b, 1), At(b, 2), At(b, 3), At(b, 4));
      forall k :: DataLength(|b|) <= k < 8 ==> q[k] == 0
  {
  }

  /** A group of one to five bytes is written in alphabet characters and decodes back to itself. */
  lemma GroupRoundTrip(b: seq<Byte>)
    requires 1 <= |b| <= 5
    ensures AllBase32(Group(b)) && DecodeChunk(Group(b)) == b
  {
    var q := Quintets(At(b, 0), At(b, 1), At(b, 2), At(b, 3), At(b, 4));
    var t := Group(b);
    assert (forall k :: 0 <= k < 8 ==> q[k] < 32) && BytesOf(q) == [At(b, 0), At(b, 1), At(b, 2), At(b, 3), At(b, 4)] by {
      BytesOfQuintets(At(b, 0), At(b, 1), At(b, 2), At(b, 3), At(b, 4));
    }
    assert |t| == DataLength(|b|) && 5 * |t| / 8 == |b|;
    forall k | 0 <= k < |t|
      ensures IsBase32Char(t[k]) && GetBase32Bits(t[k]) == q[k]
    {
      BitsOfChar(q[k]);
    }
    assert forall k :: |t| <= k < 8 ==> q[k] == 0 by { ZeroTail(b); }
    assert [ValueAt(t, 0), ValueAt(t, 1), ValueAt(t, 2), ValueAt(t, 3),
            ValueAt(t, 4), ValueAt(t, 5), ValueAt(t, 6), ValueAt(t, 7)] == q;
    ExtendThenCut(b);
  }

  /** Cutting the zero-extended group back to its length gives the group. */
  lemma ExtendThenCut(b: seq<Byte>)
    requires |b| <= 5
    ensures [At(b, 0), At(b, 1), At(b, 2), At(b, 3), At(b, 4)][..|b|] == b
  {
    var x := [At(b, 0), At(b, 1), At(b, 2), At(b, 3), At(b, 4)];
    assert forall k :: 0 <= k < |b| ==> x[k] == b[k];
  }

  /** Decoding the unpadded encoding gives back the bytes. */
  lemma {:induction false} DecodeDataOfEncoding(b: seq<Byte>)
    requires |b| >= 1
    ensures AllBase32(Encode(b, false, false)) && DecodeData(Encode(b, false, false)) == b
    decreases |b|
  {
    if |b| > 5 {
      DecodeDataOfEncoding(b[5..]);
      EncodeSplits(b, false, false);
      GroupRoundTrip(b[..5]);
      var g, e' := Group(b[..5]), Encode(b[5..], false, false);
      assert |g| == 8;
      assert (g + e')[..8] == g && (g + e')[8..] == e';
      assert b[..5] + b[5..] == b;
    } else {
      GroupRoundTrip(b);
      assert Encode(b, false, false) == Group(b);
    }
  }

  /**
   * An encoding is DataLength(n) alphabet characters that decode back to the
   * bytes, followed by nothing but '='.
   */
  lemma DecodeEncodeRoundTrip(b: seq<Byte>, pad: bool, trail: bool)
    requires |b| >= 1
    ensures var e := Encode(b, pad, trail);
      DataLength(|b|) <= |e| &&
      AllBase32(e[..DataLength(|b|)]) && DecodeData(e[..DataLength(|b|)]) == b &&
      forall k :: DataLength(|b|) <= k < |e| ==> e[k] == '='
  {
    EncodeIsDataThenPadding(b, pad, trail);
    DecodeDataOfEncoding(b);
    var d := Encode(b, false, false);
    assert Encode(b, pad, trail)[..DataLength(|b|)] == d;
  }

  // ---------------------------------------------------------------- the Transform, specified

  /**
   * The encoding Transform on the bytes b, with the padded lengths aligned to
   * 8; bytesPresent and outputPresent say whether byteStream and base64Data
   * are non-null.
   */
  function EncodeResult(b: seq<Byte>, bytesPresent: bool, stringLength: U64, outputPresent: bool,
                        pad: bool, trail: bool): Base64.TransformResult<char>
    requires |b| < MaxByteCount
  {
    if !bytesPresent then Base64.TransformResult(-201, None, [])
    else if |b| == 0 then Base64.TransformResult(-202, None, [])
    else if !pad && trail then Base64.TransformResult(-203, Some(TUMaths.TwoTo64 - 1), [])
    else
      var required := RequiredLength(|b|, pad, trail);
      if stringLength < required then Base64.TransformResult(-102, Some(required), [])
      else if !outputPresent || stringLength == 0 then Base64.TransformResult(0, Some(required), [])
      else Base64.TransformResult(0, Some(required), Encode(b, pad, trail))
  }

  /** With room for the encoding, the Transform writes exactly the encoding and reports its length. */
  lemma EncodeResultOfRoom(b: seq<Byte>, stringLength: U64, pad: bool, trail: bool)
    requires 1 <= |b| < MaxByteCount && (pad || !trail)
    requires stringLength >= |Encode(b, pad, trail)|
    ensures var e := Encode(b, pad, trail);
      EncodeResult(b, true, stringLength, true, pad, trail) == Base64.TransformResult(0, Some(|e|), e)
  {
    RequiredLengthIsEncodedLength(b, pad, trail);
  }

  // ---------------------------------------------------------------- the encoding Transform

  /** The encoding of b from byte i on (nothing once i has passed the end). */
  ghost function EncodeFrom(b: seq<Byte>, i: nat, pad: bool, trail: bool): seq<char> {
    if i <= |b| then Encode(b[i..], pad, trail) else []
  }

  /** The characters the group at byte i contributes: its characters, then any padding or trailer. */
  ghost function GroupText(b: seq<Byte>, i: nat, pad: bool, trail: bool): seq<char>
    requires i < |b|
  {
    if |b| - i <= 5 then Group(b[i..]) + Padding(PadsFor(|b| - i, pad, trail))
    else Group(b[i..i + 5])
  }

  /** One turn of the encoding loop: the group at byte i, then the rest. */
  lemma EncodeFromGroup(b: seq<Byte>, i: nat, pad: bool, trail: bool)
    requires i < |b|
    ensures EncodeFrom(b, i, pad, trail) == GroupText(b, i, pad, trail) + EncodeFrom(b, i + 5, pad, trail)
  {
    if |b| - i > 5 {
      assert b[i..][5..] == b[i + 5..];
      assert b[i..][..5] == b[i..i + 5];
    }
  }

  lemma AppendRegroup<T>(x: seq<T>, y: seq<T>, z: seq<T>)
    ensures (x + y) + z == x + (y + z)
  {
  }

  /**
   * Transform(byteStream, byteStreamLength, base64Data, stringLength,
   * writeLength, pad, trail): the checks in the source's order, with the
   * padded lengths aligned to 8, then the encoding of the first
   * byteStreamLength bytes, group by group. The returned writeLength is what
   * is stored through the writeLength pointer (None: nothing is stored); a
   * null array is a null pointer.
   */
  method EncodeTransform(byteStream: array?<Byte>, byteStreamLength: U64, base64Data: array?<char>, stringLength: U64,
                         pad: bool, trail: bool) returns (code: int, writeLength: Option<U64>)
    requires byteStream != null ==> byteStreamLength <= byteStream.Length
    requires base64Data != null ==> stringLength <= base64Data.Length
    requires byteStreamLength < MaxByteCount
    modifies base64Data
    ensures var r := EncodeResult(if byteStream == null then [] else byteStream[..byteStreamLength], byteStream != null,
                                  stringLength, base64Data != null, pad, trail);
      code == r.code && writeLength == r.writeLength &&
      (base64Data != null ==>
         |r.written| <= stringLength &&
         base64Data[..|r.written|] == r.written &&
         base64Data[|r.written|..] == old(base64Data[|r.written|..]))
  {
    if byteStream == null {
      return -201, None;
    }
    if byteStreamLength == 0 {
      return -202, None;
    }
    if !pad && trail {
      return -203, Some(TUMaths.TwoTo64 - 1);
    }
    var requiredLength: U64;
    if pad {
      if trail {
        requiredLength := RequiredLengthWithPaddingAndTrailer(byteStreamLength);
      } else {
        requiredLength := RequiredLengthWithPadding(byteStreamLength);
      }
    } else {
      requiredLength := RequiredLengthWithoutPadding(byteStreamLength);
    }
    writeLength := Some(requiredLength);
    if stringLength < requiredLength {
      return -102, writeLength;
    }
    if base64Data == null || stringLength == 0 {
      return 0, writeLength;
    }
    RequiredLengthIsEncodedLength(byteStream[..byteStreamLength], pad, trail);
    EncodeGroups(byteStream, byteStreamLength, base64Data, pad, trail);
    return 0, writeLength;
  }

  /** The loop of the encoding Transform: one group of five bytes per turn. */
  method EncodeGroups(byteStream: array<Byte>, byteStreamLength: nat, base64Data: array<char>, pad: bool, trail: bool)
    requires byteStreamLength <= byteStream.Length
    requires |Encode(byteStream[..byteStreamLength], pad, trail)| <= base64Data.Length
    modifies base64Data
    ensures var e := Encode(byteStream[..byteStreamLength], pad, trail);
      base64Data[..|e|] == e && base64Data[|e|..] == old(base64Data[|e|..])
  {
    ghost var b := byteStream[..byteStreamLength];
    ghost var e := Encode(b, pad, trail);
    assert EncodeFrom(b, 0, pad, trail) == e;
    var writeIndex: nat := 0;
    var i: nat := 0;
    while i < byteStreamLength
      invariant i <= byteStreamLength + 4
      invariant writeIndex <= |e| <= base64Data.Length
      invariant base64Data[..writeIndex] + EncodeFrom(b, i, pad, trail) == e
      invariant base64Data[writeIndex..] == old(base64Data[writeIndex..])
      decreases byteStreamLength + 5 - i
    {
      ghost var written := base64Data[..writeIndex];
      EncodeFromGroup(b, i, pad, trail);
      writeIndex := PutGroup(byteStream, byteStreamLength, i, base64Data, writeIndex, pad, trail);
      assert base64Data[..writeIndex] == written + GroupText(b, i, pad, trail);
      AppendRegroup(written, GroupText(b, i, pad, trail), EncodeFrom(b, i + 5, pad, trail));
      assert base64Data[..writeIndex] + EncodeFrom(b, i + 5, pad, trail) == e;
      i := i + 5;
    }
    assert EncodeFrom(b, i, pad, trail) == [];
  }

  /** The body of the encoding loop: writes the group at byte i and any padding or trailer after it. */
  method PutGroup(byteStream: array<Byte>, byteStreamLength: nat, i: nat, base64Data: array<char>, writeIndex: nat,
                  pad: bool, trail: bool) returns (w: nat)
    requires i < byteStreamLength <= byteStream.Length
    requires writeIndex + |GroupText(byteStream[..byteStreamLength], i, pad, trail)| <= base64Data.Length
    modifies base64Data
    ensures w == writeIndex + |GroupText(byteStream[..byteStreamLength], i, pad, trail)|
    ensures base64Data[..w] == old(base64Data[..writeIndex]) + GroupText(byteStream[..byteStreamLength], i, pad, trail)
    ensures base64Data[w..] == old(base64Data[w..])
  {
    ghost var b := byteStream[..byteStreamLength];
    if i + 4 >= byteStreamLength {
      w := PutFinalGroup(byteStream, byteStreamLength, i, base64Data, writeIndex, pad, trail);
    } else {
      var trailer := i + 5 == byteStreamLength && trail;
      ghost var g := [byteStream[i], byteStream[i + 1], byteStream[i + 2], byteStream[i + 3], byteStream[i + 4]];
      assert b[i..i + 5] == g;
      assert i + 5 == byteStreamLength ==> b[i..] == g;
      assert GroupText(b, i, pad, trail) == Group(g) + Padding(if trailer then 7 else 0);
      w := PutFullGroup(base64Data, writeIndex, byteStream[i], byteStream[i + 1], byteStream[i + 2],
                        byteStream[i + 3], byteStream[i + 4], trailer);
    }
  }

  /** The "padding time" branch of the loop body: a final group of one to four bytes. */
  method PutFinalGroup(byteStream: array<Byte>, byteStreamLength: nat, i: nat, base64Data: array<char>, writeIndex: nat,
                       pad: bool, trail: bool) returns (w: nat)
    requires i < byteStreamLength <= byteStream.Length && i + 4 >= byteStreamLength
    requires writeIndex + |GroupText(byteStream[..byteStreamLength], i, pad, trail)| <= base64Data.Length
    modifies base64Data
    ensures w == writeIndex + |GroupText(byteStream[..byteStreamLength], i, pad, trail)|
    ensures base64Data[..w] == old(base64Data[..writeIndex]) + GroupText(byteStream[..byteStreamLength], i, pad, trail)
    ensures base64Data[w..] == old(base64Data[w..])
  {
    ghost var b := byteStream[..byteStreamLength];
    if i + 1 >= byteStreamLength {
      assert b[i..] == [byteStream[i]];
      assert |b| - i == 1 && PadsFor(1, pad, trail) == (if pad then 6 else 0);
      assert GroupText(b, i, pad, trail) == Group([byteStream[i]]) + Padding(if pad then 6 else 0);
      w := PutOneByteGroup(base64Data, writeIndex, byteStream[i], pad);
    } else if i + 2 >= byteStreamLength {
      assert b[i..] == [byteStream[i], byteStream[i + 1]];
      assert |b| - i == 2 && PadsFor(2, pad, trail) == (if pad then 4 else 0);
      assert GroupText(b, i, pad, trail) == Group([byteStream[i], byteStream[i + 1]]) + Padding(if pad then 4 else 0);
      w := PutTwoByteGroup(base64Data, writeIndex, byteStream[i], byteStream[i + 1], pad);
    } else if i + 3 >= byteStreamLength {
      assert b[i..] == [byteStream[i], byteStream[i + 1], byteStream[i + 2]];
      assert |b| - i == 3 && PadsFor(3, pad, trail) == (if pad then 3 else 0);
      assert GroupText(b, i, pad, trail) ==
             Group([byteStream[i], byteStream[i + 1], byteStream[i + 2]]) + Padding(if pad then 3 else 0);
      w := PutThreeByteGroup(base64Data, writeIndex, byteStream[i], byteStream[i + 1], byteStream[i + 2], pad);
    } else {
      assert b[i..] == [byteStream[i], byteStream[i + 1], byteStream[i + 2], byteStream[i + 3]];
      assert |b| - i == 4 && PadsFor(4, pad, trail) == (if pad then 1 else 0);
      assert GroupText(b, i, pad, trail) ==
             Group([byteStream[i], byteStream[i + 1], byteStream[i + 2], byteStream[i + 3]]) + Padding(if pad then 1 else 0);
      w := PutFourByteGroup(base64Data, writeIndex, byteStream[i], byteStream[i + 1], byteStream[i + 2],
                            byteStream[i + 3], pad);
    }
  }

  /** A final group of one byte: two characters, then six '=' when pad is set. */
  method PutOneByteGroup(base64Data: array<char>, writeIndex: nat, byte0: Byte, pad: bool) returns (w: nat)
    requires writeIndex + |Group([byte0]) + Padding(if pad then 6 else 0)| <= base64Data.Length
    modifies base64Data
    ensures w == writeIndex + |Group([byte0]) + Padding(if pad then 6 else 0)|
    ensures base64Data[..w] == old(base64Data[..writeIndex]) + (Group([byte0]) + Padding(if pad then 6 else 0))
    ensures base64Data[w..] == old(base64Data[w..])
  {
    var sex0 := byte0 / 8;
    var sex1 := (byte0 % 8) * 4;
    base64Data[writeIndex] := GetBase32Char(sex0);
    base64Data[writeIndex + 1] := GetBase32Char(sex1);
    w := writeIndex + 2;
    if pad {
      base64Data[w] := '=';
      base64Data[w + 1] := '=';
      base64Data[w + 2] := '=';
      base64Data[w + 3] := '=';
      base64Data[w + 4] := '=';
      base64Data[w + 5] := '=';
      w := w + 6;
    }
  }

  /** A final group of two bytes: four characters, then four '=' when pad is set. */
  method PutTwoByteGroup(base64Data: array<char>, writeIndex: nat, byte0: Byte, byte1: Byte, pad: bool) returns (w: nat)
    requires writeIndex + |Group([byte0, byte1]) + Padding(if pad then 4 else 0)| <= base64Data.Length
    modifies base64Data
    ensures w == writeIndex + |Group([byte0, byte1]) + Padding(if pad then 4 else 0)|
    ensures base64Data[..w] == old(base64Data[..writeIndex]) + (Group([byte0, byte1]) + Padding(if pad then 4 else 0))
    ensures base64Data[w..] == old(base64Data[w..])
  {
    var sex0 := byte0 / 8;
    var sex1 := (byte0 % 8) * 4 + byte1 / 64;
    var sex2 := (byte1 / 2) % 32;
    var sex3 := (byte1 % 2) * 16;
    base64Data[writeIndex] := GetBase32Char(sex0);
    base64Data[writeIndex + 1] := GetBase32Char(sex1);
    base64Data[writeIndex + 2] := GetBase32Char(sex2);
    base64Data[writeIndex + 3] := GetBase32Char(sex3);
    w := writeIndex + 4;
    if pad {
      base64Data[w] := '=';
      base64Data[w + 1] := '=';
      base64Data[w + 2] := '=';
      base64Data[w + 3] := '=';
      w := w + 4;
    }
  }

  /** A final group of three bytes: five characters, then three '=' when pad is set. */
  method PutThreeByteGroup(base64Data: array<char>, writeIndex: nat, byte0: Byte, byte1: Byte, byte2: Byte, pad: bool) returns (w: nat)
    requires writeIndex + |Group([byte0, byte1, byte2]) + Padding(if pad then 3 else 0)| <= base64Data.Length
    modifies base64Data
    ensures w == writeIndex + |Group([byte0, byte1, byte2]) + Padding(if pad then 3 else 0)|
    ensures base64Data[..w] == old(base64Data[..writeIndex]) + (Group([byte0, byte1, byte2]) + Padding(if pad then 3 else 0))
    ensures base64Data[w..] == old(base64Data[w..])
  {
    var sex0 := byte0 / 8;
    var sex1 := (byte0 % 8) * 4 + byte1 / 64;
    var sex2 := (byte1 / 2) % 32;
    var sex3 := (byte1 % 2) * 16 + byte2 / 16;
    var sex4 := (byte2 % 16) * 2;
    base64Data[writeIndex] := GetBase32Char(sex0);
    base64Data[writeIndex + 1] := GetBase32Char(sex1);
    base64Data[writeIndex + 2] := GetBase32Char(sex2);
    base64Data[writeIndex + 3] := GetBase32Char(sex3);
    base64Data[writeIndex + 4] := GetBase32Char(sex4);
    w := writeIndex + 5;
    if pad {
      base64Data[w] := '=';
      base64Data[w + 1] := '=';
      base64Data[w + 2] := '=';
      w := w + 3;
    }
  }

  /** A final group of four bytes: seven characters, then one '=' when pad is set. */
  method PutFourByteGroup(base64Data: array<char>, writeIndex: nat, byte0: Byte, byte1: Byte, byte2: Byte, byte3: Byte, pad: bool) returns (w: nat)
    requires writeIndex + |Group([byte0, byte1, byte2, byte3]) + Padding(if pad then 1 else 0)| <= base64Data.Length
    modifies base64Data
    ensures w == writeIndex + |Group([byte0, byte1, byte2, byte3]) + Padding(if pad then 1 else 0)|
    ensures base64Data[..w] == old(base64Data[..writeIndex]) + (Group([byte0, byte1, byte2, byte3]) + Padding(if pad then 1 else 0))
    ensures base64Data[w..] == old(base64Data[w..])
  {
    var sex0 := byte0 / 8;
    var sex1 := (byte0 % 8) * 4 + byte1 / 64;
    var sex2 := (byte1 / 2) % 32;
    var sex3 := (byte1 % 2) * 16 + byte2 / 16;
    var sex4 := (byte2 % 16) * 2 + byte3 / 128;
    var sex5 := (byte3 / 4) % 32;
    var sex6 := (byte3 % 4) * 8;
    base64Data[writeIndex] := GetBase32Char(sex0);
    base64Data[writeIndex + 1] := GetBase32Char(sex1);
    base64Data[writeIndex + 2] := GetBase32Char(sex2);
    base64Data[writeIndex + 3] := GetBase32Char(sex3);
    base64Data[writeIndex + 4] := GetBase32Char(sex4);
    base64Data[writeIndex + 5] := GetBase32Char(sex5);
    base64Data[writeIndex + 6] := GetBase32Char(sex6);
    w := writeIndex + 7;
    if pad {
      base64Data[w] := '=';
      w := w + 1;
    }
  }

  /** A full group: eight characters, then seven '=' after the last group of a stream when trail is set. */
  method PutFullGroup(base64Data: array<char>, writeIndex: nat, byte0: Byte, byte1: Byte, byte2: Byte, byte3: Byte, byte4: Byte, trailer: bool) returns (w: nat)
    requires writeIndex + |Group([byte0, byte1, byte2, byte3, byte4]) + Padding(if trailer then 7 else 0)| <= base64Data.Length
    modifies base64Data
    ensures w == writeIndex + |Group([byte0, byte1, byte2, byte3, byte4]) + Padding(if trailer then 7 else 0)|
    ensures base64Data[..w] == old(base64Data[..writeIndex]) + (Group([byte0, byte1, byte2, byte3, byte4]) + Padding(if trailer then 7 else 0))
    ensures base64Data[w..] == old(base64Data[w..])
  {
    var sex0 := byte0 / 8;
    var sex1 := (byte0 % 8) * 4 + byte1 / 64;
    var sex2 := (byte1 / 2) % 32;
    var sex3 := (byte1 % 2) * 16 + byte2 / 16;
    var sex4 := (byte2 % 16) * 2 + byte3 / 128;
    var sex5 := (byte3 / 4) % 32;
    var sex6 := (byte3 % 4) * 8 + byte4 / 32;
    var sex7 := byte4 % 32;
    base64Data[writeIndex] := GetBase32Char(sex0);
    base64Data[writeIndex + 1] := GetBase32Char(sex1);
    base64Data[writeIndex + 2] := GetBase32Char(sex2);
    base64Data[writeIndex + 3] := GetBase32Char(sex3);
    base64Data[writeIndex + 4] := GetBase32Char(sex4);
    base64Data[writeIndex + 5] := GetBase32Char(sex5);
    base64Data[writeIndex + 6] := GetBase32Char(sex6);
    base64Data[writeIndex + 7] := GetBase32Char(sex7);
    w := writeIndex + 8;
    if trailer {
      base64Data[w] := '=';
      base64Data[w + 1] := '=';
      base64Data[w + 2] := '=';
      base64Data[w + 3] := '=';
      base64Data[w + 4] := '=';
      base64Data[w + 5] := '=';
      base64Data[w + 6] := '=';
      w := w + 7;
    }
  }
}
