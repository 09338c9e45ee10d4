/*
 * Base64Codec (Base64.hpp): the alphabet maps, the length helpers and both
 * Transform overloads, following section 4 of RFC 4648 (and, with the
 * '-' / '_' alternatives, the URL-safe alphabet of section 5).
 *
 * Byte streams are arrays of 8-bit values, text is an array of char. Bit
 * shifts and masks on bytes are written as the equivalent div and mod. Lengths are
 * 64-bit (uSys); the length helpers wrap around exactly as the C++
 * arithmetic does.
 */
module Base64 {

  import opened Wrappers
  import TUMaths

  /** An unsigned 8-bit value; the shifts and masks of the source become div and mod. */
  type Byte = x: int | 0 <= x < 256
  type U64 = TUMaths.U64

  /** Reduction modulo 2^64, the effect of unsigned 64-bit arithmetic. */
  function Wrap(x: int): (r: U64)
    ensures 0 <= x < TUMaths.TwoTo64 ==> r == x
  {
    x % TUMaths.TwoTo64
  }

  /** The template parameters PlusCharAlt and SlashCharAlt. */
  datatype Alphabet = Alphabet(plus: char, slash: char)

  /** DefaultBase64Codec / StrictBase64Codec: section 4 of RFC 4648. */
  const Standard := Alphabet('+', '/')
  /** UrlBase64Codec: section 5 of RFC 4648. */
  const UrlSafe := Alphabet('-', '_')

  predicate IsUpper(c: char) { 'A' <= c <= 'Z' }
  predicate IsLower(c: char) { 'a' <= c <= 'z' }
  predicate IsDigit(c: char) { '0' <= c <= '9' }

  /** The two extra characters are distinct, not alphanumeric and not '='. */
  predicate ValidAlphabet(a: Alphabet) {
    a.plus != a.slash &&
    !IsUpper(a.plus) && !IsLower(a.plus) && !IsDigit(a.plus) && a.plus != '=' &&
    !IsUpper(a.slash) && !IsLower(a.slash) && !IsDigit(a.slash) && a.slash != '='
  }

  // ---------------------------------------------------------------- character maps

  predicate IsBase64Char(c: char, a: Alphabet) {
    IsUpper(c) || IsLower(c) || IsDigit(c) || c == a.plus || c == a.slash
  }

  /** CHAR_MAP[i]: 'A'..'Z', 'a'..'z', '0'..'9', then the two alternatives. */
  function CharMap(i: Byte, a: Alphabet): char
    requires i < 64
  {
    if i < 26 then ('A' as int + i) as char
    else if i < 52 then ('a' as int + (i - 26)) as char
    else if i < 62 then ('0' as int + (i - 52)) as char
    else if i == 62 then a.plus
    else a.slash
  }

  /** GetBase64Char: '\0' when either of the top two bits (mask 0xC0) is set. */
  function GetBase64Char(v: Byte, a: Alphabet): char {
    if v >= 64 then '\0' else CharMap(v, a)
  }

  /** GetBase64Bits: the 6-bit value of an alphabet character, 0xFF otherwise. */
  function GetBase64Bits(c: char, a: Alphabet): (r: Byte)
    ensures r < 64 || r == 0xFF
  {
    if IsUpper(c) then c as int - 'A' as int
    else if IsLower(c) then c as int - 'a' as int + 26
    else if IsDigit(c) then c as int - '0' as int + 52
    else if c == a.plus then 0x3E
    else if c == a.slash then 0x3F
    else 0xFF
  }

  /** GetBase64Char yields '\0' exactly for the values with a top bit set. */
  lemma CharOfLargeValue(v: Byte, a: Alphabet)
    requires ValidAlphabet(a) && a.plus != '\0' && a.slash != '\0'
    ensures GetBase64Char(v, a) == '\0' <==> v >= 64
  {
  }

  /** Every 6-bit value survives the trip through its character. */
  lemma BitsOfChar(v: Byte, a: Alphabet)
    requires ValidAlphabet(a) && v < 64
    ensures IsBase64Char(GetBase64Char(v, a), a)
    ensures GetBase64Bits(GetBase64Char(v, a), a) == v
  {
  }

  /** Every alphabet character survives the trip through its value, for any alternatives. */
  lemma CharOfBits(c: char, a: Alphabet)
    requires IsBase64Char(c, a)
    ensures GetBase64Bits(c, a) < 64
    ensures GetBase64Char(GetBase64Bits(c, a), a) == c
  {
  }

  /** IsBase64Char and GetBase64Bits agree on what the alphabet is. */
  lemma BitsRejectExactlyNonAlphabet(c: char, a: Alphabet)
    ensures GetBase64Bits(c, a) == 0xFF <==> !IsBase64Char(c, a)
  {
  }

  // ---------------------------------------------------------------- length helpers

  /** `1 + ((byteCount * 4 - 1) / 3)` in 64-bit arithmetic. */
  function RequiredLengthWithoutPadding(byteCount: U64): U64 {
    Wrap(1 + Wrap(Wrap(byteCount * 4) - 1) / 3)
  }

  /** The unpadded length rounded up to a multiple of 4 (AlignTo<uSys, 4>). */
  function RequiredLengthWithPadding(byteCount: U64): U64 {
    TUMaths.AlignTo(RequiredLengthWithoutPadding(byteCount), 4)
  }

  /** As RequiredLengthWithPadding, but an aligned length gains a trailer of three '='. */
  function RequiredLengthWithPaddingAndTrailer(byteCount: U64): U64 {
    var requiredLength := RequiredLengthWithoutPadding(byteCount);
    if requiredLength % 4 == 0 then Wrap(requiredLength + 3)
    else TUMaths.AlignTo(requiredLength, 4)
  }

  /** `(stringLength * 3) / 4` in 64-bit arithmetic. */
  function NumBytesWithoutPadding(stringLength: U64): U64 {
    Wrap(stringLength * 3) / 4
  }

  /** Byte counts small enough that no length computation wraps. */
  const MaxByteCount: nat := 0x4000_0000_0000_0000

  /** Text lengths small enough that `stringLength * 3` does not wrap. */
  const MaxTextLength: nat := 0x5555_5555_5555_5555

  /** The length Transform demands for the chosen padding options. */
  function RequiredLength(byteCount: U64, pad: bool, trail: bool): U64 {
    if pad then
      (if trail then RequiredLengthWithPaddingAndTrailer(byteCount) else RequiredLengthWithPadding(byteCount))
    else RequiredLengthWithoutPadding(byteCount)
  }

  /** The unpadded length is ceil(4n / 3). */
  lemma RequiredLengthWithoutPaddingIsCeiling(n: U64)
    requires 1 <= n < MaxByteCount
    ensures 3 * (RequiredLengthWithoutPadding(n) - 1) < 4 * n <= 3 * RequiredLengthWithoutPadding(n)
    ensures RequiredLengthWithoutPadding(n) == (4 * n + 2) / 3
  {
  }

  /** For an empty stream the subtraction wraps and the "required" length is huge. */
  lemma RequiredLengthOfNothing()
    ensures RequiredLengthWithoutPadding(0) == 0x5555_5555_5555_5556
  {
  }

  lemma RequiredLengthExamples()
    ensures RequiredLengthWithoutPadding(1) == 2
    ensures RequiredLengthWithoutPadding(4) == 6
    ensures RequiredLengthWithoutPadding(6) == 8
  {
  }

  /** AlignTo with alignment 4 rounds up to the next multiple of 4. */
  lemma AlignToFour(val: U64)
    requires val + 4 < TUMaths.TwoTo64
    ensures TUMaths.AlignTo(val, 4) == (val + 3) / 4 * 4
  {
    assert TUMaths.Pow2(2) == 4;
    TUMaths.AlignToPow2(val, 2);
    TUMaths.AlignToIsLeast(val, 2, (val + 3) / 4 * 4);
  }

  /** The padded length is the unpadded one rounded up to a multiple of 4. */
  lemma RequiredLengthWithPaddingRoundsUp(n: U64)
    requires 1 <= n < MaxByteCount
    ensures RequiredLengthWithPadding(n) == (RequiredLengthWithoutPadding(n) + 3) / 4 * 4
  {
    AlignToFour(RequiredLengthWithoutPadding(n));
  }

  /** The trailer variant always ends with at least one padding character. */
  lemma RequiredLengthWithTrailer(n: U64)
    requires 1 <= n < MaxByteCount
    ensures var u := RequiredLengthWithoutPadding(n);
      RequiredLengthWithPaddingAndTrailer(n) == (if u % 4 == 0 then u + 3 else (u + 3) / 4 * 4)
  {
    AlignToFour(RequiredLengthWithoutPadding(n));
  }

  /** NumBytesWithoutPadding(L) = floor(3L / 4). */
  lemma NumBytesIsFloor(stringLength: U64)
    requires stringLength < MaxByteCount
    ensures 4 * NumBytesWithoutPadding(stringLength) <= 3 * stringLength < 4 * NumBytesWithoutPadding(stringLength) + 4
  {
  }

  // ---------------------------------------------------------------- encoding, specified

  /** The characters of a list of sextets. */
  function Chars(sextets: seq<Byte>, a: Alphabet): (r: seq<char>)
    ensures |r| == |sextets|
    ensures forall i :: 0 <= i < |sextets| ==> r[i] == GetBase64Char(sextets[i], a)
  {
    if sextets == [] then [] else [GetBase64Char(sextets[0], a)] + Chars(sextets[1..], a)
  }

  /**
   * The four sextets of a full group of three bytes, most significant first:
   * b0 >> 2, ((b0 & 0x3) << 4) | (b1 >> 4), ((b1 & 0xF) << 2) | (b2 >> 6), b2 & 0x3F.
   */
  function Sextets3(b0: Byte, b1: Byte, b2: Byte): seq<Byte> {
    [b0 / 4, (b0 % 4) * 16 + b1 / 16, (b1 % 16) * 4 + b2 / 64, b2 % 64]
  }

  /** The three sextets of a final group of two bytes. */
  function Sextets2(b0: Byte, b1: Byte): seq<Byte> {
    [b0 / 4, (b0 % 4) * 16 + b1 / 16, (b1 % 16) * 4]
  }

  /** The two sextets of a final group of one byte. */
  function Sextets1(b0: Byte): seq<Byte> {
    [b0 / 4, (b0 % 4) * 16]
  }

  /** The four characters of a full group of three bytes. */
  function Group(b0: Byte, b1: Byte, b2: Byte, a: Alphabet): seq<char> {
    Chars(Sextets3(b0, b1, b2), a)
  }

  /**
   * The last one, two or three bytes: a final group of one or two bytes gets
   * "==" or "=" when pad is set, and with trail a full last group gets "===".
   */
  function EncodeLast(b: seq<Byte>, pad: bool, trail: bool, a: Alphabet): seq<char>
    requires |b| <= 3
  {
    if |b| == 0 then []
    else if |b| == 1 then Chars(Sextets1(b[0]), a) + (if pad then "==" else "")
    else if |b| == 2 then Chars(Sextets2(b[0], b[1]), a) + (if pad then "=" else "")
    else Group(b[0], b[1], b[2], a) + (if trail then "===" else "")
  }

  /** The text the encoding Transform writes, group by group. */
  function Encode(b: seq<Byte>, pad: bool, trail: bool, a: Alphabet): seq<char>
    decreases |b|
  {
    if |b| <= 3 then EncodeLast(b, pad, trail, a)
    else Group(b[0], b[1], b[2], a) + Encode(b[3..], pad, trail, a)
  }

  /** The number of '=' the encoding ends with. */
  function PadsFor(n: nat, pad: bool, trail: bool): nat {
    if !pad then 0
    else if n % 3 == 1 then 2
    else if n % 3 == 2 then 1
    else if trail then 3
    else 0
  }

  /** The encoding is ceil(4n/3) alphabet characters followed by the padding. */
  lemma {:induction false} EncodeLength(b: seq<Byte>, pad: bool, trail: bool, a: Alphabet)
    requires pad || !trail
    ensures |Encode(b, pad, trail, a)| == (4 * |b| + 2) / 3 + (if |b| == 0 then 0 else PadsFor(|b|, pad, trail))
    decreases |b|
  {
    if |b| > 3 {
      EncodeLength(b[3..], pad, trail, a);
      EncodeSplits(b, pad, trail, a);
    } else {
      EncodeLastLength(b, pad, trail, a);
    }
  }

  lemma EncodeLastLength(b: seq<Byte>, pad: bool, trail: bool, a: Alphabet)
    requires |b| <= 3 && (pad || !trail)
    ensures |Encode(b, pad, trail, a)| == (4 * |b| + 2) / 3 + (if |b| == 0 then 0 else PadsFor(|b|, pad, trail))
  {
  }

  /** The length Transform checks the output buffer against is exactly the length of the encoding. */
  lemma RequiredLengthIsEncodedLength(b: seq<Byte>, pad: bool, trail: bool, a: Alphabet)
    requires 1 <= |b| < MaxByteCount && (pad || !trail)
    ensures RequiredLength(|b|, pad, trail) == |Encode(b, pad, trail, a)|
  {
    EncodeLength(b, pad, trail, a);
    RequiredLengthOfCount(|b|, pad, trail);
  }

  /** RequiredLength is ceil(4n/3) plus the padding the encoder writes. */
  lemma RequiredLengthOfCount(n: U64, pad: bool, trail: bool)
    requires 1 <= n < MaxByteCount && (pad || !trail)
    ensures RequiredLength(n, pad, trail) == (4 * n + 2) / 3 + PadsFor(n, pad, trail)
  {
    RequiredLengthWithoutPaddingIsCeiling(n);
    if pad {
      PaddingArithmetic(n);
      if trail {
        RequiredLengthWithTrailer(n);
      } else {
        RequiredLengthWithPaddingRoundsUp(n);
      }
    }
  }

  /** The padding brings ceil(4n/3) up to the next multiple of 4, or adds the trailer. */
  lemma PaddingArithmetic(n: nat)
    requires n >= 1
    ensures var u := (4 * n + 2) / 3;
      u + PadsFor(n, true, false) == (u + 3) / 4 * 4 &&
      u + PadsFor(n, true, true) == (if u % 4 == 0 then u + 3 else (u + 3) / 4 * 4)
  {
    var q, r := n / 3, n % 3;
    var c := if r == 0 then 0 else if r == 1 then 2 else 3;
    var u := (4 * n + 2) / 3;
    TUMaths.DivModUnique(4 * n + 2, 3, 4 * q + c, if r == 0 then 2 else if r == 1 then 0 else 1);
    TUMaths.DivModUnique(u, 4, q, c);
    TUMaths.DivModUnique(u + 3, 4, q + (if r == 0 then 0 else 1), (c + 3) % 4);
  }

  /** The examples of section 10 of RFC 4648, with and without padding. */
  lemma EncodeExamples()
    ensures Encode([0x66], true, false, Standard) == "Zg=="
    ensures Encode([0x66, 0x6F], true, false, Standard) == "Zm8="
    ensures Encode([0x66, 0x6F, 0x6F], true, false, Standard) == "Zm9v"
    ensures Encode([0x66, 0x6F], false, false, Standard) == "Zm8"
    ensures Encode([0x66, 0x6F, 0x6F], true, true, Standard) == "Zm9v==="
  {
    assert Sextets3(0x66, 0x6F, 0x6F) == [25, 38, 61, 47];
    assert Chars([25, 38, 61, 47], Standard) == "Zm9v";
    assert Sextets2(0x66, 0x6F) == [25, 38, 60];
    assert Chars([25, 38, 60], Standard) == "Zm8";
    assert Sextets1(0x66) == [25, 32];
    assert Chars([25, 32], Standard) == "Zg";
  }

  // ---------------------------------------------------------------- decoding, specified

  /** The status code and the bytes the decoding Transform writes before it stops. */
  datatype DecodeOutcome = DecodeOutcome(code: int, bytes: seq<Byte>)

  /** The number of trailing '=' the decoder recognises: up to three. */
  function PadCount(s: seq<char>): (r: nat)
    requires |s| > 0
    ensures r <= 3 && r <= |s|
    ensures forall k :: |s| - r <= k < |s| ==> s[k] == '='
    ensures r < 3 && r < |s| ==> s[|s| - 1 - r] != '='
  {
    if s[|s| - 1] == '=' then
      if |s| > 1 && s[|s| - 2] == '=' then
        if |s| > 2 && s[|s| - 3] == '=' then 3 else 2
      else 1
    else 0
  }

  /** `(u8)((s0 << 2) | (s1 >> 4))` for sextets s0, s1. */
  function Byte0(s0: Byte, s1: Byte): Byte
    requires s0 < 64 && s1 < 64
  {
    s0 * 4 + s1 / 16
  }

  /** `(u8)((s1 << 4) | (s2 >> 2))`: the cast drops the top two bits of s1. */
  function Byte1(s1: Byte, s2: Byte): Byte
    requires s1 < 64 && s2 < 64
  {
    (s1 % 16) * 16 + s2 / 4
  }

  /** `(u8)((s2 << 6) | s3)`. */
  function Byte2(s2: Byte, s3: Byte): Byte
    requires s2 < 64 && s3 < 64
  {
    (s2 % 4) * 64 + s3
  }

  /**
   * The final group of r < 4 characters, in the order the decoder evidently
   * intends: one character is an error (-402), two give one byte, three
   * give two bytes. t is the text from this group on, padding included.
   */
  function FinalGroup(t: seq<char>, r: nat, enforce: bool, a: Alphabet): DecodeOutcome
    requires 1 <= r < 4 && r <= |t|
  {
    var s0 := GetBase64Bits(t[0], a);
    if s0 == 0xFF then DecodeOutcome(-401, [])
    else if enforce && |t| != 4 then DecodeOutcome(-302, [])
    else if r == 1 then DecodeOutcome(-402, [])
    else if r == 2 then
      var s1 := GetBase64Bits(t[1], a);
      if s1 == 0xFF then DecodeOutcome(-401, []) else DecodeOutcome(0, [Byte0(s0, s1)])
    else
      var s1, s2 := GetBase64Bits(t[1], a), GetBase64Bits(t[2], a);
      if s1 == 0xFF || s2 == 0xFF then DecodeOutcome(-401, [])
      else DecodeOutcome(0, [Byte0(s0, s1), Byte1(s1, s2)])
  }

  /**
   * The final group as written: the test for "one byte" (i + 3 > required)
   * comes first and also catches a single leftover character, whose partner
   * t[1] may lie past the end of the text (None); the -402 branch is dead.
   */
  function FinalGroupAsWritten(t: seq<char>, r: nat, enforce: bool, a: Alphabet): Option<DecodeOutcome>
    requires 1 <= r < 4 && r <= |t|
  {
    var s0 := GetBase64Bits(t[0], a);
    if s0 == 0xFF then Some(DecodeOutcome(-401, []))
    else if enforce && |t| != 4 then Some(DecodeOutcome(-302, []))
    else if r < 3 then
      if |t| < 2 then None
      else
        var s1 := GetBase64Bits(t[1], a);
        if s1 == 0xFF then Some(DecodeOutcome(-401, [])) else Some(DecodeOutcome(0, [Byte0(s0, s1)]))
    else if r < 2 then Some(DecodeOutcome(-402, []))
    else
      var s1, s2 := GetBase64Bits(t[1], a), GetBase64Bits(t[2], a);
      if s1 == 0xFF || s2 == 0xFF then Some(DecodeOutcome(-401, []))
      else Some(DecodeOutcome(0, [Byte0(s0, s1), Byte1(s1, s2)]))
  }

  /** The two agree on every final group of two or three characters. */
  lemma FinalGroupAgrees(t: seq<char>, r: nat, enforce: bool, a: Alphabet)
    requires 2 <= r < 4 && r <= |t|
    ensures FinalGroupAsWritten(t, r, enforce, a) == Some(FinalGroup(t, r, enforce, a))
  {
  }

  /** "QUJDR": the leftover 'R' makes the decoder read one character past the text. */
  lemma FinalGroupReadsPastEnd()
    ensures FinalGroupAsWritten("R", 1, false, Standard) == None
    ensures FinalGroup("R", 1, false, Standard) == DecodeOutcome(-402, [])
  {
  }

  /** "QUJDR=": as written the '=' after the leftover 'R' is read as its partner, giving -401 where -402 is meant. */
  lemma FinalGroupReadsPadding()
    ensures FinalGroupAsWritten("R=", 1, false, Standard) == Some(DecodeOutcome(-401, []))
    ensures FinalGroup("R=", 1, false, Standard) == DecodeOutcome(-402, [])
  {
  }

  /** As written, no final group ever yields -402: that branch is dead. */
  lemma AsWrittenNever402(t: seq<char>, r: nat, enforce: bool, a: Alphabet)
    requires 1 <= r < 4 && r <= |t|
    ensures FinalGroupAsWritten(t, r, enforce, a) != Some(DecodeOutcome(-402, []))
    ensures FinalGroup(t, r, enforce, a) == DecodeOutcome(-402, []) <==>
              r == 1 && GetBase64Bits(t[0], a) != 0xFF && !(enforce && |t| != 4)
  {
  }

  /** The decoding loop from a group boundary, with r data characters left in t. */
  function DecodeFrom(t: seq<char>, r: nat, enforce: bool, a: Alphabet): DecodeOutcome
    requires r <= |t|
    decreases r
  {
    if r == 0 then DecodeOutcome(0, [])
    else if r < 4 then FinalGroup(t, r, enforce, a)
    else
      var s0, s1, s2, s3 := GetBase64Bits(t[0], a), GetBase64Bits(t[1], a), GetBase64Bits(t[2], a), GetBase64Bits(t[3], a);
      if s0 == 0xFF || s1 == 0xFF || s2 == 0xFF || s3 == 0xFF then DecodeOutcome(-401, [])
      else
        var rest := DecodeFrom(t[4..], r - 4, enforce, a);
        DecodeOutcome(rest.code, [Byte0(s0, s1), Byte1(s1, s2), Byte2(s2, s3)] + rest.bytes)
  }

  /** The loop writes at most three bytes per four characters, so it never overruns NumBytesWithoutPadding. */
  lemma {:induction false} DecodeFromBound(t: seq<char>, r: nat, enforce: bool, a: Alphabet)
    requires r <= |t|
    ensures 4 * |DecodeFrom(t, r, enforce, a).bytes| <= 3 * r
    decreases r
  {
    if r >= 4 {
      DecodeFromBound(t[4..], r - 4, enforce, a);
    }
  }

  // ---------------------------------------------------------------- round trip

  lemma FullGroupRoundTrip(b0: Byte, b1: Byte, b2: Byte, a: Alphabet)
    requires ValidAlphabet(a)
    ensures var x := Sextets3(b0, b1, b2); var t := Chars(x, a);
      GetBase64Bits(t[0], a) == x[0] && GetBase64Bits(t[1], a) == x[1] &&
      GetBase64Bits(t[2], a) == x[2] && GetBase64Bits(t[3], a) == x[3] &&
      Byte0(x[0], x[1]) == b0 && Byte1(x[1], x[2]) == b1 && Byte2(x[2], x[3]) == b2
  {
    var x := Sextets3(b0, b1, b2);
    BitsOfChar(x[0], a);
    BitsOfChar(x[1], a);
    BitsOfChar(x[2], a);
    BitsOfChar(x[3], a);
  }

  lemma TwoByteGroupRoundTrip(b0: Byte, b1: Byte, a: Alphabet)
    requires ValidAlphabet(a)
    ensures var x := Sextets2(b0, b1); var t := Chars(x, a);
      GetBase64Bits(t[0], a) == x[0] && GetBase64Bits(t[1], a) == x[1] && GetBase64Bits(t[2], a) == x[2] &&
      Byte0(x[0], x[1]) == b0 && Byte1(x[1], x[2]) == b1
  {
    var x := Sextets2(b0, b1);
    BitsOfChar(x[0], a);
    BitsOfChar(x[1], a);
    BitsOfChar(x[2], a);
  }

  lemma OneByteGroupRoundTrip(b0: Byte, a: Alphabet)
    requires ValidAlphabet(a)
    ensures var x := Sextets1(b0); var t := Chars(x, a);
      GetBase64Bits(t[0], a) == x[0] && GetBase64Bits(t[1], a) == x[1] && Byte0(x[0], x[1]) == b0
  {
    var x := Sextets1(b0);
    BitsOfChar(x[0], a);
    BitsOfChar(x[1], a);
  }

  /** An encoding of n >= 3 bytes is the first group's characters followed by the encoding of the rest. */
  lemma EncodeSplits(b: seq<Byte>, pad: bool, trail: bool, a: Alphabet)
    requires |b| > 3
    ensures Encode(b, pad, trail, a) == Group(b[0], b[1], b[2], a) + Encode(b[3..], pad, trail, a)
  {
  }

  /** The decoder finds exactly the padding the encoder wrote. */
  lemma {:induction false} PadCountOfEncoding(b: seq<Byte>, pad: bool, trail: bool, a: Alphabet)
    requires ValidAlphabet(a) && |b| >= 1 && (pad || !trail)
    ensures PadCount(Encode(b, pad, trail, a)) == PadsFor(|b|, pad, trail)
    decreases |b|
  {
    if |b| > 3 {
      var e, e' := Encode(b, pad, trail, a), Encode(b[3..], pad, trail, a);
      EncodeSplits(b, pad, trail, a);
      PadCountOfEncoding(b[3..], pad, trail, a);
      EncodeLength(b[3..], pad, trail, a);
      PadsForStep(|b| - 3, pad, trail);
      PadCountOfSuffix(Group(b[0], b[1], b[2], a), e', e);
    } else {
      PadCountOfLast(b, pad, trail, a);
    }
  }

  lemma PadCountOfLast(b: seq<Byte>, pad: bool, trail: bool, a: Alphabet)
    requires ValidAlphabet(a) && 1 <= |b| <= 3 && (pad || !trail)
    ensures PadCount(Encode(b, pad, trail, a)) == PadsFor(|b|, pad, trail)
  {
    if |b| == 3 {
      BitsOfChar(Sextets3(b[0], b[1], b[2])[3], a);
    } else if |b| == 2 {
      BitsOfChar(Sextets2(b[0], b[1])[2], a);
    } else {
      BitsOfChar(Sextets1(b[0])[1], a);
    }
  }

  /** Padding is counted from the end, so a long enough suffix decides it. */
  lemma PadCountOfSuffix(g: seq<char>, e: seq<char>, s: seq<char>)
    requires |e| >= 2 && (PadCount(e) < 3 ==> |e| > PadCount(e)) && s == g + e
    ensures PadCount(s) == PadCount(e)
  {
    assert s[|s| - 1] == e[|e| - 1] && s[|s| - 2] == e[|e| - 2];
    if |e| >= 3 {
      assert s[|s| - 3] == e[|e| - 3];
    }
  }

  /** Decoding the data part of the encoding of b, all but its padding, gives back b. */
  predicate DecodesBack(b: seq<Byte>, pad: bool, trail: bool, enforce: bool, a: Alphabet) {
    var e := Encode(b, pad, trail, a);
    PadsFor(|b|, pad, trail) <= |e| &&
    DecodeFrom(e, |e| - PadsFor(|b|, pad, trail), enforce, a) == DecodeOutcome(0, b)
  }

  /** Decoding the data part of an encoding gives back the bytes. */
  lemma {:induction false} DecodeFromEncoding(b: seq<Byte>, pad: bool, trail: bool, enforce: bool, a: Alphabet)
    requires ValidAlphabet(a) && |b| >= 1 && (pad || !trail) && (enforce ==> pad)
    ensures DecodesBack(b, pad, trail, enforce, a)
    decreases |b|
  {
    if |b| > 3 {
      DecodeFromEncoding(b[3..], pad, trail, enforce, a);
      DecodeFromEncodingStep(b, pad, trail, enforce, a);
    } else {
      DecodeLastGroup(b, pad, trail, enforce, a);
    }
  }

  /** The base case: one, two or three bytes. */
  lemma DecodeLastGroup(b: seq<Byte>, pad: bool, trail: bool, enforce: bool, a: Alphabet)
    requires ValidAlphabet(a) && 1 <= |b| <= 3 && (pad || !trail) && (enforce ==> pad)
    ensures DecodesBack(b, pad, trail, enforce, a)
  {
    if |b| == 3 {
      DecodeLastThree(b, pad, trail, enforce, a);
    } else if |b| == 2 {
      DecodeLastTwo(b, pad, trail, enforce, a);
    } else {
      DecodeLastOne(b, pad, trail, enforce, a);
    }
  }

  lemma DecodeLastThree(b: seq<Byte>, pad: bool, trail: bool, enforce: bool, a: Alphabet)
    requires ValidAlphabet(a) && |b| == 3 && (pad || !trail) && (enforce ==> pad)
    ensures DecodesBack(b, pad, trail, enforce, a)
  {
    var e := Encode(b, pad, trail, a);
    FullGroupRoundTrip(b[0], b[1], b[2], a);
    DecodeGroupThenRest(e, 4, enforce, a);
    assert b == [b[0], b[1], b[2]] + [];
  }

  lemma DecodeLastTwo(b: seq<Byte>, pad: bool, trail: bool, enforce: bool, a: Alphabet)
    requires ValidAlphabet(a) && |b| == 2 && (pad || !trail) && (enforce ==> pad)
    ensures DecodesBack(b, pad, trail, enforce, a)
  {
    TwoByteGroupRoundTrip(b[0], b[1], a);
    assert b == [b[0], b[1]];
  }

  lemma DecodeLastOne(b: seq<Byte>, pad: bool, trail: bool, enforce: bool, a: Alphabet)
    requires ValidAlphabet(a) && |b| == 1 && (pad || !trail) && (enforce ==> pad)
    ensures DecodesBack(b, pad, trail, enforce, a)
  {
    OneByteGroupRoundTrip(b[0], a);
    assert b == [b[0]];
  }

  /** The inductive step: the first group decodes ahead of the rest. */
  lemma DecodeFromEncodingStep(b: seq<Byte>, pad: bool, trail: bool, enforce: bool, a: Alphabet)
    requires ValidAlphabet(a) && |b| > 3
    requires DecodesBack(b[3..], pad, trail, enforce, a)
    ensures DecodesBack(b, pad, trail, enforce, a)
  {
    var e, e' := Encode(b, pad, trail, a), Encode(b[3..], pad, trail, a);
    var p := PadsFor(|b|, pad, trail);
    assert p == PadsFor(|b[3..]|, pad, trail) by {
      PadsForStep(|b| - 3, pad, trail);
    }
    assert DecodeFrom(e', |e'| - p, enforce, a) == DecodeOutcome(0, b[3..]);
    EncodeSplits(b, pad, trail, a);
    SplitFirstThree(b);
    DecodeFullGroup(b[0], b[1], b[2], e, e', |e'| - p, b[3..], enforce, a);
  }

  lemma SplitFirstThree(b: seq<Byte>)
    requires |b| >= 3
    ensures [b[0], b[1], b[2]] + b[3..] == b
  {
  }

  /** One step of the induction: a full group, then the decoding of the rest. */
  lemma DecodeFullGroup(b0: Byte, b1: Byte, b2: Byte, t: seq<char>, e': seq<char>, r': nat, rest: seq<Byte>, enforce: bool, a: Alphabet)
    requires ValidAlphabet(a) && r' <= |e'| && t == Group(b0, b1, b2, a) + e'
    requires DecodeFrom(e', r', enforce, a) == DecodeOutcome(0, rest)
    ensures r' + 4 <= |t| && DecodeFrom(t, r' + 4, enforce, a) == DecodeOutcome(0, [b0, b1, b2] + rest)
  {
    FullGroupRoundTrip(b0, b1, b2, a);
    DecodeGroupThenRest(t, r' + 4, enforce, a);
    assert t[4..] == e';
  }

  lemma PadsForStep(n: nat, pad: bool, trail: bool)
    requires n >= 1
    ensures PadsFor(n + 3, pad, trail) == PadsFor(n, pad, trail)
  {
  }

  /** A full group of four alphabet characters decodes to three bytes ahead of the rest. */
  lemma DecodeGroupThenRest(t: seq<char>, r: nat, enforce: bool, a: Alphabet)
    requires 4 <= r <= |t|
    requires forall k :: 0 <= k < 4 ==> GetBase64Bits(t[k], a) < 64
    ensures var s0, s1, s2, s3 := GetBase64Bits(t[0], a), GetBase64Bits(t[1], a), GetBase64Bits(t[2], a), GetBase64Bits(t[3], a);
      var rest := DecodeFrom(t[4..], r - 4, enforce, a);
      DecodeFrom(t, r, enforce, a) == DecodeOutcome(rest.code, [Byte0(s0, s1), Byte1(s1, s2), Byte2(s2, s3)] + rest.bytes)
  {
  }

  /**
   * The round trip the decoding Transform completes on e, the encoding of
   * b: the padding it counts is the padding the encoder wrote, the output length it demands is the
   * byte count, and the loop returns the original bytes.
   */
  lemma DecodeEncodeRoundTrip(b: seq<Byte>, pad: bool, trail: bool, enforce: bool, a: Alphabet, e: seq<char>)
    requires ValidAlphabet(a) && 1 <= |b| < MaxByteCount && (pad || !trail) && (enforce ==> pad)
    requires e == Encode(b, pad, trail, a)
    ensures 0 < |e| < TUMaths.TwoTo64 && PadCount(e) == PadsFor(|b|, pad, trail)
    ensures NumBytesWithoutPadding(|e| - PadCount(e)) == |b|
    ensures DecodeFrom(e, |e| - PadCount(e), enforce, a) == DecodeOutcome(0, b)
  {
    EncodingShape(b, pad, trail, a, e);
    EncodingDataDecodes(b, pad, trail, enforce, a, e);
    DecodeText(e, PadsFor(|b|, pad, trail), b, enforce, a);
  }

  /** An encoding is DataLength characters of data followed by the padding PadsFor counts. */
  lemma EncodingShape(b: seq<Byte>, pad: bool, trail: bool, a: Alphabet, e: seq<char>)
    requires ValidAlphabet(a) && 1 <= |b| && (pad || !trail)
    requires e == Encode(b, pad, trail, a)
    ensures |e| > 0 && PadCount(e) == PadsFor(|b|, pad, trail)
    ensures |e| == DataLength(|b|) + PadsFor(|b|, pad, trail)
  {
    EncodeLength(b, pad, trail, a);
    PadCountOfEncoding(b, pad, trail, a);
  }

  /** The data part of an encoding decodes to the bytes. */
  lemma EncodingDataDecodes(b: seq<Byte>, pad: bool, trail: bool, enforce: bool, a: Alphabet, e: seq<char>)
    requires ValidAlphabet(a) && 1 <= |b| < MaxByteCount && (pad || !trail) && (enforce ==> pad)
    requires e == Encode(b, pad, trail, a)
    ensures PadsFor(|b|, pad, trail) <= |e| && DecodeFrom(e, |e| - PadsFor(|b|, pad, trail), enforce, a) == DecodeOutcome(0, b)
  {
    DecodeFromEncoding(b, pad, trail, enforce, a);
  }

  /** ceil(4n/3), the number of data characters of n bytes. */
  function DataLength(n: nat): nat {
    (4 * n + 2) / 3
  }

  /** Any text with the encoding's length, padding and data part decodes as the round trip needs. */
  lemma DecodeText(e: seq<char>, p: nat, b: seq<Byte>, enforce: bool, a: Alphabet)
    requires 1 <= |b| < MaxByteCount && |e| > 0 && PadCount(e) == p && |e| == DataLength(|b|) + p
    requires p <= |e| && DecodeFrom(e, |e| - p, enforce, a) == DecodeOutcome(0, b)
    ensures |e| < TUMaths.TwoTo64 && PadCount(e) == p && NumBytesWithoutPadding(|e| - PadCount(e)) == |b|
    ensures DecodeFrom(e, |e| - PadCount(e), enforce, a) == DecodeOutcome(0, b)
  {
    NumBytesOfEncodedLength(|b|, |e|, p);
  }

  /** ceil(4n/3) data characters carry exactly n bytes. */
  lemma NumBytesOfEncodedLength(n: nat, len: nat, p: nat)
    requires 1 <= n < MaxByteCount && p <= 3 && len == (4 * n + 2) / 3 + p
    ensures len < TUMaths.TwoTo64 && NumBytesWithoutPadding(len - p) == n
  {
    var u := (4 * n + 2) / 3;
    var r := (4 * n + 2) % 3;
    TUMaths.DivModUnique(3 * u, 4, n, 2 - r);
  }

  /** The strict codec refuses unpadded text, so its round trip needs pad, and trail when 3 divides n. */
  lemma StrictRoundTripNeedsPadding(b: seq<Byte>, a: Alphabet)
    requires ValidAlphabet(a) && |b| >= 1 && |b| % 3 == 0
    ensures PadCount(Encode(b, true, false, a)) == 0
    ensures PadCount(Encode(b, true, true, a)) == 3
  {
    PadCountOfEncoding(b, true, false, a);
    PadCountOfEncoding(b, true, true, a);
  }

  // ---------------------------------------------------------------- the Transforms, specified

  /**
   * What a Transform returns, what it stores through its writeLength pointer
   * (None: nothing) and what it writes at the start of its output buffer.
   */
  datatype TransformResult<T> = TransformResult(code: int, writeLength: Option<U64>, written: seq<T>)

  /**
   * The encoding Transform on the bytes b; bytesPresent and outputPresent
   * say whether byteStream and base64Data are non-null.
   */
  function EncodeResult(b: seq<Byte>, bytesPresent: bool, stringLength: U64, outputPresent: bool,
                        pad: bool, trail: bool, a: Alphabet): TransformResult<char>
    requires |b| < MaxByteCount
  {
    if !bytesPresent then TransformResult(-201, None, [])
    else if |b| == 0 then TransformResult(-202, None, [])
    else if !pad && trail then TransformResult(-203, Some(TUMaths.TwoTo64 - 1), [])
    else
      var required := RequiredLength(|b|, pad, trail);
      if stringLength < required then TransformResult(-102, Some(required), [])
      else if !outputPresent || stringLength == 0 then TransformResult(0, Some(required), [])
      else TransformResult(0, Some(required), Encode(b, pad, trail, a))
  }

  /**
   * The decoding Transform on the text t; textPresent and outputPresent say
   * whether base64Data and byteStream are non-null. enforce is the
   * EnforcePadding template parameter.
   */
  function DecodeResult(t: seq<char>, textPresent: bool, byteStreamLength: U64, outputPresent: bool,
                        enforce: bool, a: Alphabet): TransformResult<Byte>
    requires |t| < TUMaths.TwoTo64
  {
    if !textPresent then TransformResult(-201, None, [])
    else if |t| == 0 then TransformResult(-202, None, [])
    else
      var p := PadCount(t);
      if enforce && p == 0 then TransformResult(-301, Some(TUMaths.TwoTo64 - 1), [])
      else
        var required := NumBytesWithoutPadding(|t| - p);
        if byteStreamLength < required then TransformResult(-102, Some(required), [])
        else if !outputPresent || byteStreamLength == 0 then TransformResult(0, Some(required), [])
        else
          var o := DecodeFrom(t, |t| - p, enforce, a);
          DecodeFromBound(t, |t| - p, enforce, a);
          TransformResult(o.code, Some(if o.code == 0 then required else |o.bytes|), o.bytes)
  }

  /** With room for the required length, the encoding Transform writes exactly the encoding and reports its length. */
  lemma EncodeResultOfRoom(b: seq<Byte>, stringLength: U64, pad: bool, trail: bool, a: Alphabet)
    requires 1 <= |b| < MaxByteCount && (pad || !trail)
    requires stringLength >= |Encode(b, pad, trail, a)|
    ensures var e := Encode(b, pad, trail, a);
      EncodeResult(b, true, stringLength, true, pad, trail, a) == TransformResult(0, Some(|e|), e)
  {
    RequiredLengthIsEncodedLength(b, pad, trail, a);
  }

  /** Decoding an encoding into a buffer of at least |b| bytes returns 0, reports |b| and writes b. */
  lemma DecodeResultOfEncoding(b: seq<Byte>, byteStreamLength: U64, pad: bool, trail: bool, enforce: bool, a: Alphabet, e: seq<char>)
    requires ValidAlphabet(a) && 1 <= |b| < MaxByteCount && (pad || !trail)
    requires enforce ==> PadsFor(|b|, pad, trail) != 0
    requires byteStreamLength >= |b| && e == Encode(b, pad, trail, a)
    ensures |e| < TUMaths.TwoTo64 && DecodeResult(e, true, byteStreamLength, true, enforce, a) == TransformResult(0, Some(|b|), b)
  {
    DecodeEncodeRoundTrip(b, pad, trail, enforce, a, e);
    DecodeResultOfData(e, b, byteStreamLength, enforce, a);
  }

  /** A text whose data part decodes to b, with room for b, decodes through the Transform to b. */
  lemma DecodeResultOfData(e: seq<char>, b: seq<Byte>, byteStreamLength: U64, enforce: bool, a: Alphabet)
    requires 0 < |e| < TUMaths.TwoTo64 && 1 <= |b| <= byteStreamLength
    requires enforce ==> PadCount(e) != 0
    requires NumBytesWithoutPadding(|e| - PadCount(e)) == |b|
    requires DecodeFrom(e, |e| - PadCount(e), enforce, a) == DecodeOutcome(0, b)
    ensures DecodeResult(e, true, byteStreamLength, true, enforce, a) == TransformResult(0, Some(|b|), b)
  {
  }

  /**
   * The two Transforms are inverse: encoding into a large enough buffer and
   * decoding the text written gives back the bytes. The strict codec needs
   * the encoder to have written some padding.
   */
  lemma TransformRoundTrip(b: seq<Byte>, stringLength: U64, byteStreamLength: U64,
                           pad: bool, trail: bool, enforce: bool, a: Alphabet)
    requires ValidAlphabet(a) && 1 <= |b| < MaxByteCount && (pad || !trail)
    requires enforce ==> PadsFor(|b|, pad, trail) != 0
    requires stringLength >= RequiredLength(|b|, pad, trail) && byteStreamLength >= |b|
    ensures var r := EncodeResult(b, true, stringLength, true, pad, trail, a);
      r.code == 0 && r.writeLength == Some(|r.written|) && |r.written| < TUMaths.TwoTo64 &&
      DecodeResult(r.written, true, byteStreamLength, true, enforce, a) == TransformResult(0, Some(|b|), b)
  {
    RequiredLengthIsEncodedLength(b, pad, trail, a);
    EncodeResultOfRoom(b, stringLength, pad, trail, a);
    DecodeResultOfEncoding(b, byteStreamLength, pad, trail, enforce, a, Encode(b, pad, trail, a));
  }

  // ---------------------------------------------------------------- the encoding Transform

  /** The encoding of b from byte i on (nothing once i has passed the end). */
  ghost function EncodeFrom(b: seq<Byte>, i: nat, pad: bool, trail: bool, a: Alphabet): seq<char> {
    if i <= |b| then Encode(b[i..], pad, trail, a) else []
  }

  /** The characters the group at byte i contributes: its sextets, then any padding or trailer. */
  ghost function GroupText(b: seq<Byte>, i: nat, pad: bool, trail: bool, a: Alphabet): seq<char>
    requires i < |b|
  {
    if |b| - i == 1 then Chars(Sextets1(b[i]), a) + (if pad then "==" else "")
    else if |b| - i == 2 then Chars(Sextets2(b[i], b[i + 1]), a) + (if pad then "=" else "")
    else Group(b[i], b[i + 1], b[i + 2], a) + (if |b| - i == 3 && trail then "===" else "")
  }

  /** One turn of the encoding loop: the group at byte i, then the rest. */
  lemma EncodeFromGroup(b: seq<Byte>, i: nat, pad: bool, trail: bool, a: Alphabet)
    requires i < |b|
    ensures EncodeFrom(b, i, pad, trail, a) == GroupText(b, i, pad, trail, a) + EncodeFrom(b, i + 3, pad, trail, a)
  {
    if |b| - i > 3 {
      assert b[i..][3..] == b[i + 3..];
    }
  }

  lemma AppendRegroup<T>(x: seq<T>, y: seq<T>, z: seq<T>)
    ensures (x + y) + z == x + (y + z)
  {
  }

  /**
   * Transform(byteStream, byteStreamLength, base64Data, stringLength,
   * writeLength, pad, trail): the checks in the source's order, then the
   * encoding of the first byteStreamLength bytes, group by group. The
   * returned writeLength is what is stored through the writeLength pointer
   * when that is not null (None: nothing is stored); a null array is a null
   * pointer.
   */
  method EncodeTransform(byteStream: array?<Byte>, byteStreamLength: U64, base64Data: array?<char>, stringLength: U64,
                         pad: bool, trail: bool, a: Alphabet) returns (code: int, writeLength: Option<U64>)
    requires byteStream != null ==> byteStreamLength <= byteStream.Length
    requires base64Data != null ==> stringLength <= base64Data.Length
    requires byteStreamLength < MaxByteCount
    modifies base64Data
    ensures var r := EncodeResult(if byteStream == null then [] else byteStream[..byteStreamLength], byteStream != null,
                                  stringLength, base64Data != null, pad, trail, a);
      code == r.code && writeLength == r.writeLength &&
      (base64Data != null ==>
         |r.written| <= stringLength &&
         base64Data[..|r.written|] == r.written &&
         base64Data[|r.written|..] == old(base64Data[|r.written|..]))
  {
    if byteStream == null {
      return -201, None;
    }
    if byteStreamLength == 0 {
      return -202, None;
    }
    if !pad && trail {
      return -203, Some(TUMaths.TwoTo64 - 1);
    }
    var requiredLength: U64;
    if pad {
      if trail {
        requiredLength := RequiredLengthWithPaddingAndTrailer(byteStreamLength);
      } else {
        requiredLength := RequiredLengthWithPadding(byteStreamLength);
      }
    } else {
      requiredLength := RequiredLengthWithoutPadding(byteStreamLength);
    }
    writeLength := Some(requiredLength);
    if stringLength < requiredLength {
      return -102, writeLength;
    }
    if base64Data == null || stringLength == 0 {
      return 0, writeLength;
    }
    RequiredLengthIsEncodedLength(byteStream[..byteStreamLength], pad, trail, a);
    EncodeGroups(byteStream, byteStreamLength, base64Data, pad, trail, a);
    return 0, writeLength;
  }

  /** The loop of the encoding Transform: one group of three bytes per turn. */
  method EncodeGroups(byteStream: array<Byte>, byteStreamLength: nat, base64Data: array<char>, pad: bool, trail: bool, a: Alphabet)
    requires byteStreamLength <= byteStream.Length
    requires |Encode(byteStream[..byteStreamLength], pad, trail, a)| <= base64Data.Length
    modifies base64Data
    ensures var e := Encode(byteStream[..byteStreamLength], pad, trail, a);
      base64Data[..|e|] == e && base64Data[|e|..] == old(base64Data[|e|..])
  {
    ghost var b := byteStream[..byteStreamLength];
    ghost var e := Encode(b, pad, trail, a);
    assert EncodeFrom(b, 0, pad, trail, a) == e;
    var writeIndex: nat := 0;
    var i: nat := 0;
    while i < byteStreamLength
      invariant i <= byteStreamLength + 2
      invariant writeIndex <= |e| <= base64Data.Length
      invariant base64Data[..writeIndex] + EncodeFrom(b, i, pad, trail, a) == e
      invariant base64Data[writeIndex..] == old(base64Data[writeIndex..])
      decreases byteStreamLength + 3 - i
    {
      ghost var written := base64Data[..writeIndex];
      EncodeFromGroup(b, i, pad, trail, a);
      writeIndex := PutGroup(byteStream, byteStreamLength, i, base64Data, writeIndex, pad, trail, a);
      assert base64Data[..writeIndex] == written + GroupText(b, i, pad, trail, a);
      AppendRegroup(written, GroupText(b, i, pad, trail, a), EncodeFrom(b, i + 3, pad, trail, a));
      assert base64Data[..writeIndex] + EncodeFrom(b, i + 3, pad, trail, a) == e;
      i := i + 3;
    }
    assert EncodeFrom(b, i, pad, trail, a) == [];
  }

  /** The body of the encoding loop: writes the group at byte i and any padding or trailer after it. */
  method PutGroup(byteStream: array<Byte>, byteStreamLength: nat, i: nat, base64Data: array<char>, writeIndex: nat,
                  pad: bool, trail: bool, a: Alphabet) returns (w: nat)
    requires i < byteStreamLength <= byteStream.Length
    requires writeIndex + |GroupText(byteStream[..byteStreamLength], i, pad, trail, a)| <= base64Data.Length
    modifies base64Data
    ensures w == writeIndex + |GroupText(byteStream[..byteStreamLength], i, pad, trail, a)|
    ensures base64Data[..w] == old(base64Data[..writeIndex]) + GroupText(byteStream[..byteStreamLength], i, pad, trail, a)
    ensures base64Data[w..] == old(base64Data[w..])
  {
    ghost var b := byteStream[..byteStreamLength];
    if i + 3 > byteStreamLength {
      if i + 2 > byteStreamLength {
        w := PutOneByteGroup(base64Data, writeIndex, byteStream[i], pad, a);
      } else {
        w := PutTwoByteGroup(base64Data, writeIndex, byteStream[i], byteStream[i + 1], pad, a);
      }
    } else {
      w := PutFullGroup(base64Data, writeIndex, byteStream[i], byteStream[i + 1], byteStream[i + 2],
                        i + 3 == byteStreamLength && trail, a);
    }
  }

  /** The final group of one byte: two characters, then "==" when pad is set. */
  method PutOneByteGroup(base64Data: array<char>, writeIndex: nat, byte0: Byte, pad: bool, a: Alphabet) returns (w: nat)
    requires writeIndex + |Chars(Sextets1(byte0), a) + (if pad then "==" else "")| <= base64Data.Length
    modifies base64Data
    ensures w == writeIndex + |Chars(Sextets1(byte0), a) + (if pad then "==" else "")|
    ensures base64Data[..w] == old(base64Data[..writeIndex]) + Chars(Sextets1(byte0), a) + (if pad then "==" else "")
    ensures base64Data[w..] == old(base64Data[w..])
  {
    var sex0, sex1 := byte0 / 4, (byte0 % 4) * 16;
    base64Data[writeIndex] := GetBase64Char(sex0, a);
    base64Data[writeIndex + 1] := GetBase64Char(sex1, a);
    w := writeIndex + 2;
    if pad {
      base64Data[w] := '=';
      base64Data[w + 1] := '=';
      w := w + 2;
    }
  }

  /** The final group of two bytes: three characters, then "=" when pad is set. */
  method PutTwoByteGroup(base64Data: array<char>, writeIndex: nat, byte0: Byte, byte1: Byte, pad: bool, a: Alphabet)
    returns (w: nat)
    requires writeIndex + |Chars(Sextets2(byte0, byte1), a) + (if pad then "=" else "")| <= base64Data.Length
    modifies base64Data
    ensures w == writeIndex + |Chars(Sextets2(byte0, byte1), a) + (if pad then "=" else "")|
    ensures base64Data[..w] == old(base64Data[..writeIndex]) + Chars(Sextets2(byte0, byte1), a) + (if pad then "=" else "")
    ensures base64Data[w..] == old(base64Data[w..])
  {
    var sex0 := byte0 / 4;
    var sex1 := (byte0 % 4) * 16 + byte1 / 16;
    var sex2 := (byte1 % 16) * 4;
    base64Data[writeIndex] := GetBase64Char(sex0, a);
    base64Data[writeIndex + 1] := GetBase64Char(sex1, a);
    base64Data[writeIndex + 2] := GetBase64Char(sex2, a);
    w := writeIndex + 3;
    if pad {
      base64Data[w] := '=';
      w := w + 1;
    }
  }

  /** A full group: four characters, then "===" after the last group of a stream when trail is set. */
  method PutFullGroup(base64Data: array<char>, writeIndex: nat, byte0: Byte, byte1: Byte, byte2: Byte, trailer: bool,
                      a: Alphabet) returns (w: nat)
    requires writeIndex + |Group(byte0, byte1, byte2, a) + (if trailer then "===" else "")| <= base64Data.Length
    modifies base64Data
    ensures w == writeIndex + |Group(byte0, byte1, byte2, a) + (if trailer then "===" else "")|
    ensures base64Data[..w] == old(base64Data[..writeIndex]) + Group(byte0, byte1, byte2, a) + (if trailer then "===" else "")
    ensures base64Data[w..] == old(base64Data[w..])
  {
    var sex0 := byte0 / 4;
    var sex1 := (byte0 % 4) * 16 + byte1 / 16;
    var sex2 := (byte1 % 16) * 4 + byte2 / 64;
    var sex3 := byte2 % 64;
    base64Data[writeIndex] := GetBase64Char(sex0, a);
    base64Data[writeIndex + 1] := GetBase64Char(sex1, a);
    base64Data[writeIndex + 2] := GetBase64Char(sex2, a);
    base64Data[writeIndex + 3] := GetBase64Char(sex3, a);
    w := writeIndex + 4;
    if trailer {
      base64Data[w] := '=';
      base64Data[w + 1] := '=';
      base64Data[w + 2] := '=';
      w := w + 3;
    }
  }

  // ---------------------------------------------------------------- the decoding Transform

  /** The decoding from character i on (nothing once i has passed the data part). */
  ghost function DecodeRest(t: seq<char>, r: nat, i: nat, enforce: bool, a: Alphabet): DecodeOutcome
    requires r <= |t|
  {
    if i <= r then DecodeFrom(t[i..], r - i, enforce, a) else DecodeOutcome(0, [])
  }

  /** The outcome of the group at character i alone: its status and the bytes it yields. */
  ghost function GroupDecode(t: seq<char>, r: nat, i: nat, enforce: bool, a: Alphabet): DecodeOutcome
    requires i < r <= |t|
  {
    if r - i < 4 then FinalGroup(t[i..], r - i, enforce, a)
    else
      var s0, s1, s2, s3 := GetBase64Bits(t[i], a), GetBase64Bits(t[i + 1], a), GetBase64Bits(t[i + 2], a), GetBase64Bits(t[i + 3], a);
      if s0 == 0xFF || s1 == 0xFF || s2 == 0xFF || s3 == 0xFF then DecodeOutcome(-401, [])
      else DecodeOutcome(0, [Byte0(s0, s1), Byte1(s1, s2), Byte2(s2, s3)])
  }

  /** One turn of the decoding loop: a failing group ends the decoding, a good one comes before the rest. */
  lemma DecodeRestGroup(t: seq<char>, r: nat, i: nat, enforce: bool, a: Alphabet)
    requires i < r <= |t|
    ensures var g, rest := GroupDecode(t, r, i, enforce, a), DecodeRest(t, r, i + 4, enforce, a);
      (g.code != 0 ==> g.bytes == [] && DecodeRest(t, r, i, enforce, a) == g) &&
      (g.code == 0 ==> DecodeRest(t, r, i, enforce, a) == DecodeOutcome(rest.code, g.bytes + rest.bytes))
  {
    if r - i >= 4 {
      assert t[i..][4..] == t[i + 4..];
    } else {
      assert GroupDecode(t, r, i, enforce, a).bytes + [] == GroupDecode(t, r, i, enforce, a).bytes;
    }
  }

  /** The padding count of the Transform: '=' characters at the end of the text, at most three. */
  method CountPadding(base64Data: array<char>, stringLength: nat) returns (padCharCount: nat)
    requires 0 < stringLength <= base64Data.Length
    ensures padCharCount == PadCount(base64Data[..stringLength])
  {
    padCharCount := 0;
    if base64Data[stringLength - 1] == '=' {
      if stringLength > 1 && base64Data[stringLength - 2] == '=' {
        if stringLength > 2 && base64Data[stringLength - 3] == '=' {
          padCharCount := 3;
        } else {
          padCharCount := 2;
        }
      } else {
        padCharCount := 1;
      }
    }
  }

  /**
   * Transform(base64Data, stringLength, byteStream, byteStreamLength,
   * writeLength): the checks in the source's order, the padding count, then
   * the decoding of the data part group by group. The final group is tested
   * in the evidently intended order (FinalGroup).
   */
  method DecodeTransform(base64Data: array?<char>, stringLength: U64, byteStream: array?<Byte>, byteStreamLength: U64,
                         enforce: bool, a: Alphabet) returns (code: int, writeLength: Option<U64>)
    requires base64Data != null ==> stringLength <= base64Data.Length
    requires byteStream != null ==> byteStreamLength <= byteStream.Length
    requires stringLength < MaxTextLength
    modifies byteStream
    ensures var r := DecodeResult(if base64Data == null then [] else base64Data[..stringLength], base64Data != null,
                                  byteStreamLength, byteStream != null, enforce, a);
      code == r.code && writeLength == r.writeLength &&
      (byteStream != null ==>
         |r.written| <= byteStreamLength &&
         byteStream[..|r.written|] == r.written &&
         byteStream[|r.written|..] == old(byteStream[|r.written|..]))
  {
    if base64Data == null {
      return -201, None;
    }
    if stringLength == 0 {
      return -202, None;
    }
    ghost var t := base64Data[..stringLength];
    var padCharCount := CountPadding(base64Data, stringLength);
    if enforce && padCharCount == 0 {
      return -301, Some(TUMaths.TwoTo64 - 1);
    }
    var requiredLength := NumBytesWithoutPadding(stringLength - padCharCount);
    writeLength := Some(requiredLength);
    if byteStreamLength < requiredLength {
      return -102, writeLength;
    }
    if byteStream == null || byteStreamLength == 0 {
      return 0, writeLength;
    }
    var requiredIterations := stringLength - padCharCount;
    DecodeFitsRequired(t, requiredIterations, enforce, a);
    var writeIndex;
    code, writeIndex := DecodeGroups(base64Data, stringLength, requiredIterations, byteStream, enforce, a);
    if code != 0 {
      writeLength := Some(writeIndex);
    }
  }

  /** NumBytesWithoutPadding leaves room for every byte the loop writes. */
  lemma DecodeFitsRequired(t: seq<char>, r: nat, enforce: bool, a: Alphabet)
    requires r <= |t| && r < MaxTextLength
    ensures |DecodeFrom(t, r, enforce, a).bytes| <= NumBytesWithoutPadding(r)
  {
    DecodeFromBound(t, r, enforce, a);
  }

  /** The loop of the decoding Transform: one group of four characters per turn, up to the first error. */
  method DecodeGroups(base64Data: array<char>, stringLength: nat, r: nat, byteStream: array<Byte>, enforce: bool, a: Alphabet)
    returns (code: int, writeIndex: nat)
    requires r <= stringLength <= base64Data.Length
    requires |DecodeFrom(base64Data[..stringLength], r, enforce, a).bytes| <= byteStream.Length
    modifies byteStream
    ensures var o := DecodeFrom(base64Data[..stringLength], r, enforce, a);
      code == o.code && writeIndex == |o.bytes| &&
      byteStream[..writeIndex] == o.bytes && byteStream[writeIndex..] == old(byteStream[writeIndex..])
  {
    ghost var t := base64Data[..stringLength];
    ghost var o := DecodeFrom(t, r, enforce, a);
    assert DecodeRest(t, r, 0, enforce, a) == o;
    writeIndex := 0;
    var i: nat := 0;
    while i < r
      invariant i <= r + 3
      invariant writeIndex + |DecodeRest(t, r, i, enforce, a).bytes| == |o.bytes| <= byteStream.Length
      invariant byteStream[..writeIndex] + DecodeRest(t, r, i, enforce, a).bytes == o.bytes
      invariant DecodeRest(t, r, i, enforce, a).code == o.code
      invariant byteStream[writeIndex..] == old(byteStream[writeIndex..])
      decreases r + 3 - i
    {
      ghost var written := byteStream[..writeIndex];
      DecodeRestGroup(t, r, i, enforce, a);
      code, writeIndex := TakeGroup(base64Data, stringLength, r, i, byteStream, writeIndex, enforce, a);
      if code != 0 {
        return;
      }
      assert byteStream[..writeIndex] == written + GroupDecode(t, r, i, enforce, a).bytes;
      AppendRegroup(written, GroupDecode(t, r, i, enforce, a).bytes, DecodeRest(t, r, i + 4, enforce, a).bytes);
      i := i + 4;
    }
    assert DecodeRest(t, r, i, enforce, a) == DecodeOutcome(0, []);
    code := 0;
  }

  /** The body of the decoding loop: the group at character i, its checks and the bytes it writes. */
  method TakeGroup(base64Data: array<char>, stringLength: nat, r: nat, i: nat, byteStream: array<Byte>, writeIndex: nat,
                   enforce: bool, a: Alphabet) returns (code: int, w: nat)
    requires i < r <= stringLength <= base64Data.Length
    requires writeIndex + |GroupDecode(base64Data[..stringLength], r, i, enforce, a).bytes| <= byteStream.Length
    modifies byteStream
    ensures var g := GroupDecode(base64Data[..stringLength], r, i, enforce, a);
      code == g.code && w == writeIndex + |g.bytes| &&
      byteStream[..w] == old(byteStream[..writeIndex]) + g.bytes && byteStream[w..] == old(byteStream[w..])
  {
    var sex0 := GetBase64Bits(base64Data[i], a);
    if sex0 == 0xFF {
      return -401, writeIndex;
    }
    if i + 4 > r {
      if enforce && i + 4 != stringLength {
        return -302, writeIndex;
      }
      if i + 2 > r {
        return -402, writeIndex;
      } else if i + 3 > r {
        var sex1 := GetBase64Bits(base64Data[i + 1], a);
        if sex1 == 0xFF {
          return -401, writeIndex;
        }
        byteStream[writeIndex] := sex0 * 4 + sex1 / 16;
        return 0, writeIndex + 1;
      } else {
        var sex1, sex2 := GetBase64Bits(base64Data[i + 1], a), GetBase64Bits(base64Data[i + 2], a);
        if sex1 == 0xFF || sex2 == 0xFF {
          return -401, writeIndex;
        }
        byteStream[writeIndex] := sex0 * 4 + sex1 / 16;
        byteStream[writeIndex + 1] := (sex1 % 16) * 16 + sex2 / 4;
        return 0, writeIndex + 2;
      }
    } else {
      var sex1, sex2, sex3 := GetBase64Bits(base64Data[i + 1], a), GetBase64Bits(base64Data[i + 2], a), GetBase64Bits(base64Data[i + 3], a);
      if sex1 == 0xFF || sex2 == 0xFF || sex3 == 0xFF {
        return -401, writeIndex;
      }
      byteStream[writeIndex] := sex0 * 4 + sex1 / 16;
      byteStream[writeIndex + 1] := (sex1 % 16) * 16 + sex2 / 4;
      byteStream[writeIndex + 2] := (sex2 % 4) * 64 + sex3;
      return 0, writeIndex + 3;
    }
  }
}
