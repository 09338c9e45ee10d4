/*
 * ToString.hpp: conversion of integers to NUL-terminated text, and of booleans
 * to unterminated text, in a caller's character buffer.
 *
 * The integer type of a call is the template parameter Int; here it is the
 * IntType of the call and the value is an int within that type's range. The
 * buffer is an array and bufferSize the size the caller passes, which may be
 * smaller than the array. A pointer into the buffer (buffer + 1) is an array
 * and an offset.
 */
module ToString {

  import TUMaths
  import opened Wrappers

  /** The integer types ToString.hpp has a MaxCharCount for. */
  datatype IntType = I8 | I16 | I32 | I64 | U8 | U16 | U32 | U64

  predicate Signed(t: IntType) {
    t.I8? || t.I16? || t.I32? || t.I64?
  }

  /** 2 to the number of bits of t. */
  function Modulus(t: IntType): nat {
    match t
    case I8 => 0x100
    case U8 => 0x100
    case I16 => 0x1_0000
    case U16 => 0x1_0000
    case I32 => 0x1_0000_0000
    case U32 => 0x1_0000_0000
    case I64 => 0x1_0000_0000_0000_0000
    case U64 => 0x1_0000_0000_0000_0000
  }

  function MinOf(t: IntType): int {
    if Signed(t) then -(Modulus(t) / 2) else 0
  }

  function MaxOf(t: IntType): int {
    if Signed(t) then Modulus(t) / 2 - 1 else Modulus(t) - 1
  }

  predicate InRange(t: IntType, v: int) {
    MinOf(t) <= v <= MaxOf(t)
  }

  /** MaxCharCount<Int>::Value: the longest decimal text of a value of t, sign included. */
  function MaxCharCount(t: IntType): nat {
    match t
    case I8 => 4
    case I16 => 6
    case I32 => 11
    case I64 => 20
    case U8 => 3
    case U16 => 5
    case U32 => 10
    case U64 => 20
  }

  const NUL: char := '\0'

  // ---------------------------------------------------------------- digits

  const UpperDigits: string := "0123456789ABCDEF"
  const LowerDigits: string := "0123456789abcdef"

  /** The value of a digit character in either case; 0 for anything else. */
  function DigitValue(c: char): (r: nat)
    ensures r < 16
  {
    if '0' <= c <= '9' then c as int - '0' as int
    else if 'A' <= c <= 'F' then c as int - 'A' as int + 10
    else if 'a' <= c <= 'f' then c as int - 'a' as int + 10
    else 0
  }

  /** GetNumberUpper: 0 to 15 become '0'-'9' and 'A'-'F', any other value '?'. */
  function GetNumberUpper(v: int): (r: char)
    ensures 0 <= v < 16 ==> DigitValue(r) == v && r != '?' && !('a' <= r <= 'f')
    ensures !(0 <= v < 16) ==> r == '?'
  {
    if 0 <= v < 16 then UpperDigits[v] else '?'
  }

  /** GetNumberLower: 0 to 15 become '0'-'9' and 'a'-'f', any other value '?'. */
  function GetNumberLower(v: int): (r: char)
    ensures 0 <= v < 16 ==> DigitValue(r) == v && r != '?' && !('A' <= r <= 'F')
    ensures !(0 <= v < 16) ==> r == '?'
  {
    if 0 <= v < 16 then LowerDigits[v] else '?'
  }

  function Digit(d: int, upper: bool): char {
    if upper then GetNumberUpper(d) else GetNumberLower(d)
  }

  /** The two tables agree on the decimal digits and differ only in the case of the letters. */
  lemma UpperAndLower(v: int)
    ensures 0 <= v < 10 ==> GetNumberUpper(v) == GetNumberLower(v) == '0' + v as char
    ensures 10 <= v < 16 ==> GetNumberLower(v) as int == GetNumberUpper(v) as int + 32
  {
  }

  // ---------------------------------------------------------------- reversal

  function Reverse<T>(s: seq<T>): (r: seq<T>)
    ensures |r| == |s|
    ensures forall i :: 0 <= i < |s| ==> r[i] == s[|s| - 1 - i]
  {
    if s == [] then [] else Reverse(s[1..]) + [s[0]]
  }

  lemma ReverseReverse<T>(s: seq<T>)
    ensures Reverse(Reverse(s)) == s
  {
  }

  lemma ReverseAppend<T>(a: seq<T>, b: seq<T>)
    ensures Reverse(a + b) == Reverse(b) + Reverse(a)
  {
  }

  /** Two buffers whose windows hold each other's elements in opposite order. */
  lemma ReverseWindow<T>(before: seq<T>, after: seq<T>, from: nat, n: nat)
    requires from + n <= |before| == |after|
    requires forall j :: from <= j < from + n ==> after[j] == before[2 * from + n - 1 - j]
    ensures after[from..from + n] == Reverse(before[from..from + n])
  {
    var w := after[from..from + n];
    assert forall k :: 0 <= k < n ==> w[k] == after[from + k];
  }

  /**
   * ReverseBuffer(buffer + from, n): swaps the i-th and the (n-1-i)-th element for
   * i below n / 2, so the n elements from `from` on end up reversed and nothing
   * else changes.
   */
  method ReverseBuffer<T>(buffer: array<T>, from: nat, n: nat)
    requires from + n <= buffer.Length
    modifies buffer
    ensures buffer[from..from + n] == Reverse(old(buffer[from..from + n]))
    ensures buffer[..from] == old(buffer[..from])
    ensures buffer[from + n..] == old(buffer[from + n..])
  {
    var i: nat := 0;
    var end := n / 2;
    while i < end
      invariant i <= end
      invariant forall j :: from <= j < from + n && !(from + i <= j < from + n - i) ==>
                  buffer[j] == old(buffer[2 * from + n - 1 - j])
      invariant forall j :: from + i <= j < from + n - i ==> buffer[j] == old(buffer[j])
      invariant buffer[..from] == old(buffer[..from])
      invariant buffer[from + n..] == old(buffer[from + n..])
    {
      var ri := n - 1 - i;
      var tmp := buffer[from + i];
      buffer[from + i] := buffer[from + ri];
      buffer[from + ri] := tmp;
      i := i + 1;
    }
    ReverseWindow(old(buffer[..]), buffer[..], from, n);
  }
  // ---------------------------------------------------------------- numerals

  /** The digits of n in the base as the digit loops produce them: least significant first, none for 0. */
  function LowFirst(n: nat, base: nat, upper: bool): (r: seq<char>)
    requires 2 <= base <= 16
    ensures n > 0 ==> |r| > 0
    decreases n
  {
    if n == 0 then [] else [Digit(n % base, upper)] + LowFirst(n / base, base, upper)
  }

  /** The digits of n most significant first, as they stand once reversed; the empty text for 0. */
  function Numeral(n: nat, base: nat, upper: bool): seq<char>
    requires 2 <= base <= 16
  {
    Reverse(LowFirst(n, base, upper))
  }

  /** Reads a text of digits most significant first: the reference reading of a numeral. */
  function ValueOf(s: seq<char>, base: nat): nat {
    if s == [] then 0 else ValueOf(s[..|s| - 1], base) * base + DigitValue(s[|s| - 1])
  }

  /** Reads a text of digits least significant first. */
  function LowValue(s: seq<char>, base: nat): nat {
    if s == [] then 0 else DigitValue(s[0]) + base * LowValue(s[1..], base)
  }

  function Power(b: nat, k: nat): nat {
    if k == 0 then 1 else b * Power(b, k - 1)
  }

  lemma DivModSplit(n: nat, b: nat)
    requires b > 0
    ensures n == b * (n / b) + n % b && 0 <= n % b < b && 0 <= n / b
    ensures b >= 2 && n > 0 ==> n / b < n
  {
  }

  /** Reading the loop's digits back gives n. */
  lemma {:induction false} LowFirstValue(n: nat, base: nat, upper: bool)
    requires 2 <= base <= 16
    ensures LowValue(LowFirst(n, base, upper), base) == n
    decreases n
  {
    if n > 0 {
      var q, d := n / base, n % base;
      DivModSplit(n, base);
      var s := LowFirst(n, base, upper);
      assert s == [Digit(d, upper)] + LowFirst(q, base, upper);
      LowFirstValue(q, base, upper);
      assert LowValue(s, base) == DigitValue(s[0]) + base * LowValue(s[1..], base);
    }
  }

  lemma {:induction false} ValueOfReverse(s: seq<char>, base: nat)
    ensures ValueOf(Reverse(s), base) == LowValue(s, base)
  {
    if s != [] {
      var r := Reverse(s);
      assert r[..|r| - 1] == Reverse(s[1..]);
      assert r[|r| - 1] == s[0];
      ValueOfReverse(s[1..], base);
    }
  }

  /** Reading a numeral most significant first gives back the number. */
  lemma NumeralRoundTrip(n: nat, base: nat, upper: bool)
    requires 2 <= base <= 16
    ensures ValueOf(Numeral(n, base, upper), base) == n
  {
    LowFirstValue(n, base, upper);
    ValueOfReverse(LowFirst(n, base, upper), base);
  }

  /** Every character of a numeral is a digit of the base in the chosen case. */
  lemma {:induction false} NumeralDigits(n: nat, base: nat, upper: bool)
    requires 2 <= base <= 16
    ensures forall c :: c in Numeral(n, base, upper) ==>
              ('0' <= c <= '9' || (upper && 'A' <= c <= 'F') || (!upper && 'a' <= c <= 'f')) && DigitValue(c) < base
    decreases n
  {
    if n > 0 {
      NumeralDigits(n / base, base, upper);
      ReverseAppend([Digit(n % base, upper)], LowFirst(n / base, base, upper));
      assert Numeral(n, base, upper) == Numeral(n / base, base, upper) + [Digit(n % base, upper)];
    }
  }

  /** A numeral of a positive number does not start with '0'. */
  lemma {:induction false} NumeralLeadingDigit(n: nat, base: nat, upper: bool)
    requires 2 <= base <= 16 && n > 0
    ensures Numeral(n, base, upper)[0] != '0'
    decreases n
  {
    var low := LowFirst(n, base, upper);
    var q, d := n / base, n % base;
    DivModSplit(n, base);
    assert low == [Digit(d, upper)] + LowFirst(q, base, upper);
    if q == 0 {
      assert d == n;
    } else {
      NumeralLeadingDigit(q, base, upper);
      assert low[|low| - 1] == LowFirst(q, base, upper)[|low| - 2];
    }
  }

  /** Integer division is monotone in the bound: b * p <= n exactly when p <= n / b. */
  lemma QuotientBound(n: nat, b: nat, p: nat)
    requires b > 0
    ensures b * p <= n <==> p <= n / b
  {
    var q, d := n / b, n % b;
    assert n == b * q + d;
    assert b * (q + 1) == b * q + b;
    if p <= q {
      assert b * p <= b * q by { TUMaths.MulAtLeast(b, 1); assert b * q - b * p == b * (q - p); }
    } else {
      assert b * p >= b * (q + 1) by { assert b * p - b * (q + 1) == b * (p - q - 1); }
    }
  }

  /** A number below base^k has at most k digits. */
  lemma {:induction false} DigitCountAtMost(n: nat, base: nat, upper: bool, k: nat)
    requires 2 <= base <= 16 && n < Power(base, k)
    ensures |LowFirst(n, base, upper)| <= k
    decreases k
  {
    if n > 0 {
      QuotientBound(n, base, Power(base, k - 1));
      DigitCountAtMost(n / base, base, upper, k - 1);
    }
  }

  /** A number at least base^k has more than k digits. */
  lemma {:induction false} DigitCountAbove(n: nat, base: nat, upper: bool, k: nat)
    requires 2 <= base <= 16 && Power(base, k) <= n
    ensures |LowFirst(n, base, upper)| > k
    decreases k
  {
    if k > 0 {
      QuotientBound(n, base, Power(base, k - 1));
      DigitCountAbove(n / base, base, upper, k - 1);
    }
  }
  // ---------------------------------------------------------------- decimal text

  /** The text ItoA writes for v before the NUL: '-' for a negative value, then its decimal digits. */
  function DecimalText(v: int): (r: string)
    ensures |r| >= 1
  {
    if v == 0 then "0" else if v < 0 then "-" + Numeral(-v, 10, true) else Numeral(v, 10, true)
  }

  /** Reads a decimal text with an optional leading '-': the reference reading of DecimalText. */
  function ReadDecimal(s: string): int {
    if |s| > 0 && s[0] == '-' then -(ValueOf(s[1..], 10) as int) else ValueOf(s, 10)
  }

  /** The text of v is its sign, if negative, and the digits of its magnitude. */
  lemma DecimalLength(v: int)
    requires v != 0
    ensures |DecimalText(v)| == (if v < 0 then 1 else 0) + |LowFirst(if v < 0 then -v else v, 10, true)|
    ensures DecimalText(v) == (if v < 0 then "-" else "") + Numeral(if v < 0 then -v else v, 10, true)
  {
  }

  /** ReadDecimal of a sign and a text that does not start with '-'. */
  lemma ReadSigned(negative: bool, digits: string)
    requires |digits| > 0 && digits[0] != '-'
    ensures ReadDecimal((if negative then "-" else "") + digits) ==
            if negative then -(ValueOf(digits, 10) as int) else ValueOf(digits, 10)
  {
    if negative {
      var s := "-" + digits;
      assert s[0] == '-' && s[1..] == digits;
    } else {
      assert "" + digits == digits;
    }
  }

  /** Reading the text of v back gives v. */
  lemma DecimalRoundTrip(v: int)
    ensures ReadDecimal(DecimalText(v)) == v
  {
    DecimalTextParts(v);
    ReadSigned(v < 0, MagnitudeText(v));
    if v == 0 {
      assert ValueOf("0", 10) == ValueOf([], 10) * 10 + DigitValue('0');
    } else {
      NumeralRoundTrip(if v < 0 then -v else v, 10, true);
    }
  }

  /** The number of decimal digits MaxCharCount leaves room for: one less for the sign of a signed type. */
  function DigitRoom(t: IntType): nat {
    if Signed(t) then MaxCharCount(t) - 1 else MaxCharCount(t)
  }

  /** The largest magnitude of a value of t: that of its minimum or of its maximum. */
  function Magnitude(t: IntType): nat {
    if Signed(t) then -MinOf(t) else MaxOf(t)
  }

  /** Magnitude(t) has exactly DigitRoom(t) decimal digits. */
  lemma MagnitudeDigits(t: IntType)
    ensures DigitRoom(t) > 0
    ensures Power(10, DigitRoom(t) - 1) <= Magnitude(t) < Power(10, DigitRoom(t))
  {
    assert Power(10, 2) == 100;
    assert Power(10, 3) == 1000;
    assert Power(10, 4) == 10000;
    assert Power(10, 5) == 100000;
    assert Power(10, 9) == 1000000000;
    assert Power(10, 10) == 10000000000;
    assert Power(10, 18) == 1000000000000000000;
    assert Power(10, 19) == 10000000000000000000;
    assert Power(10, 20) == 100000000000000000000;
  }

  /** MaxCharCount<Int> bounds the text of every value of the type. */
  lemma MaxCharCountBounds(t: IntType, v: int)
    requires InRange(t, v)
    ensures |DecimalText(v)| <= MaxCharCount(t)
  {
    if v != 0 {
      var m: nat := if v < 0 then -v else v;
      MagnitudeDigits(t);
      assert m <= Magnitude(t);
      DigitCountAtMost(m, 10, true, DigitRoom(t));
      DecimalLength(v);
    }
  }

  /** ... and no smaller count would do: the text of the minimum (signed) or maximum (unsigned) fills it. */
  lemma MaxCharCountReached(t: IntType)
    ensures |DecimalText(if Signed(t) then MinOf(t) else MaxOf(t))| == MaxCharCount(t)
  {
    var v := if Signed(t) then MinOf(t) else MaxOf(t);
    MagnitudeDigits(t);
    DigitCountAtMost(Magnitude(t), 10, true, DigitRoom(t));
    DigitCountAbove(Magnitude(t), 10, true, DigitRoom(t) - 1);
    DecimalLength(v);
  }
  // ---------------------------------------------------------------- the minimum of a signed type

  /**
   * What ItoA and ItoAP return for the minimum of a signed type as written: the
   * branches test i8, i16, i32 and then i32 again, so the i64 minimum falls through
   * to the final branch and gets -1 with nothing written.
   */
  function MinimumLengthAsWritten(t: IntType): int
    requires Signed(t)
  {
    if t == I8 then 4
    else if t == I16 then 6
    else if t == I32 then 11
    else if t == I32 then 20
    else -1
  }

  /** The i8, i16 and i32 branches return the length of the minimum's text; the i64 minimum gets -1. */
  lemma MinimumLengthAsWrittenMissesI64(t: IntType)
    requires Signed(t)
    ensures MinimumLengthAsWritten(t) == |DecimalText(MinOf(t))| <==> t != I64
    ensures t == I64 ==> MinimumLengthAsWritten(t) == -1 && |DecimalText(MinOf(t))| == 20
  {
    MaxCharCountReached(t);
  }

  /** What ItoA returns, with the i64 minimum spelled out like the other minimums. */
  function ItoALength(t: IntType, v: int): int {
    if v == 0 then 2 else |DecimalText(v)|
  }

  /** What ItoA returns as written: the i64 minimum gets -1. */
  function ItoALengthAsWritten(t: IntType, v: int): int {
    if v != 0 && Signed(t) && v == MinOf(t) then MinimumLengthAsWritten(t) else ItoALength(t, v)
  }

  /** The written and the corrected ItoA differ on exactly one input: the i64 minimum. */
  lemma ItoAMinimumAsWritten(t: IntType, v: int)
    requires InRange(t, v)
    ensures ItoALengthAsWritten(t, v) != ItoALength(t, v) <==> t == I64 && v == MinOf(I64)
    ensures t == I64 && v == MinOf(I64) ==> ItoALengthAsWritten(t, v) == -1 && ItoALength(t, v) == 20
  {
    if Signed(t) {
      MinimumLengthAsWrittenMissesI64(t);
    }
  }

  /** What ItoAP returns as written: -1 for the i64 minimum when the buffer is large enough. */
  function ItoAPLengthAsWritten(t: IntType, v: int, bufferSize: nat): int {
    if bufferSize >= MaxCharCount(t) + 1 && v != 0 && Signed(t) && v == MinOf(t) then MinimumLengthAsWritten(t)
    else MaxCharCount(t)
  }

  /** ItoAP as written returns MaxCharCount except for the i64 minimum in a buffer that fits it. */
  lemma ItoAPMinimumAsWritten(t: IntType, v: int, bufferSize: nat)
    requires InRange(t, v)
    ensures ItoAPLengthAsWritten(t, v, bufferSize) != MaxCharCount(t) <==>
      t == I64 && v == MinOf(I64) && bufferSize >= MaxCharCount(t) + 1
    ensures t == I64 && v == MinOf(I64) && bufferSize >= 21 ==> ItoAPLengthAsWritten(t, v, bufferSize) == -1
  {
    if Signed(t) {
      MinimumLengthAsWrittenMissesI64(t);
      MaxCharCountReached(t);
    }
  }
  // ---------------------------------------------------------------- ItoA and XtoA

  /**
   * The digit loop of ItoA and XtoA: writes the digits of n least significant first
   * from index `start` on, each one only where the index is below bufferSize, and
   * returns the index after the last digit.
   */
  method WriteDigits(buffer: array<char>, bufferSize: nat, start: nat, n: nat, base: nat, upper: bool)
    returns (w: nat)
    requires bufferSize <= buffer.Length && 2 <= base <= 16
    modifies buffer
    ensures w == start + |LowFirst(n, base, upper)|
    ensures w <= bufferSize ==>
              buffer[start..w] == LowFirst(n, base, upper) &&
              buffer[..start] == old(buffer[..start]) && buffer[w..] == old(buffer[w..])
    ensures forall j :: 0 <= j < buffer.Length && !(start <= j < w && j < bufferSize) ==> buffer[j] == old(buffer[j])
  {
    ghost var digits := LowFirst(n, base, upper);
    var val: nat := n;
    w := start;
    while val != 0
      invariant start <= w <= start + |digits|
      invariant digits[w - start..] == LowFirst(val, base, upper)
      invariant Clipped(buffer[..], old(buffer[..]), start, w, bufferSize, digits)
      decreases val
    {
      val := WriteDigit(buffer, bufferSize, start, w, val, base, upper, digits, old(buffer[..]));
      w := w + 1;
    }
    assert Clipped(buffer[..], old(buffer[..]), start, w, bufferSize, digits);
    if w <= bufferSize {
      WindowFromPointwise(buffer[..], old(buffer[..]), start, w, bufferSize, digits);
    }
  }

  /**
   * One turn of the digit loop: the least significant digit of val goes to
   * index w where that is below bufferSize, and the rest of the number is
   * returned.
   */
  method WriteDigit(buffer: array<char>, bufferSize: nat, start: nat, w: nat, val: nat, base: nat, upper: bool,
                    ghost digits: seq<char>, ghost was: seq<char>)
    returns (rest: nat)
    requires bufferSize <= buffer.Length && 2 <= base <= 16 && val != 0
    requires start <= w <= start + |digits| && digits[w - start..] == LowFirst(val, base, upper)
    requires Clipped(buffer[..], was, start, w, bufferSize, digits)
    modifies buffer
    ensures rest < val && w + 1 <= start + |digits| && digits[w + 1 - start..] == LowFirst(rest, base, upper)
    ensures Clipped(buffer[..], was, start, w + 1, bufferSize, digits)
  {
    DropDigit(digits, w - start, val, base, upper);
    var digit := val % base;
    rest := val / base;
    ghost var before := buffer[..];
    if w < bufferSize {
      buffer[w] := Digit(digit, upper);
      assert buffer[..] == before[w := digits[w - start]];
    }
    ClippedStep(before, buffer[..], was, start, w, bufferSize, digits);
  }

  /**
   * A buffer `now` that holds window[j - start] at each j in [start, w) below
   * bufferSize, and `was` everywhere else.
   */
  ghost predicate Clipped(now: seq<char>, was: seq<char>, start: nat, w: nat, bufferSize: nat, window: seq<char>)
  {
    |now| == |was| && start <= w && w - start <= |window| &&
    (forall j :: start <= j < w && j < bufferSize && j < |now| ==> now[j] == window[j - start]) &&
    (forall j :: 0 <= j < |now| && !(start <= j < w && j < bufferSize) ==> now[j] == was[j])
  }

  /** Writing the next character of the window, where it is below bufferSize, extends Clipped by one. */
  lemma ClippedStep(before: seq<char>, after: seq<char>, was: seq<char>, start: nat, w: nat, bufferSize: nat, window: seq<char>)
    requires Clipped(before, was, start, w, bufferSize, window) && w - start < |window| && bufferSize <= |before|
    requires after == if w < bufferSize then before[w := window[w - start]] else before
    ensures Clipped(after, was, start, w + 1, bufferSize, window)
  {
  }

  /** One turn of a digit loop: the next digit is val's least significant one, and the rest are val / base's. */
  lemma DropDigit(digits: seq<char>, i: nat, val: nat, base: nat, upper: bool)
    requires 2 <= base <= 16 && val != 0 && i <= |digits| && digits[i..] == LowFirst(val, base, upper)
    ensures i < |digits| && digits[i] == Digit(val % base, upper)
    ensures digits[i + 1..] == LowFirst(val / base, base, upper)
    ensures 0 <= val / base < val && 0 <= val % base < base
  {
    DivModSplit(val, base);
    assert digits[i..] == [Digit(val % base, upper)] + LowFirst(val / base, base, upper);
    assert digits[i + 1..] == digits[i..][1..];
  }

  /** A Clipped buffer whose whole window fits holds it as a slice, and the old contents elsewhere. */
  lemma WindowFromPointwise(now: seq<char>, was: seq<char>, start: nat, w: nat, bufferSize: nat, window: seq<char>)
    requires w <= bufferSize <= |now| && w - start == |window| && Clipped(now, was, start, w, bufferSize, window)
    ensures now[start..w] == window && now[..start] == was[..start] && now[w..] == was[w..]
  {
    assert forall k :: 0 <= k < w - start ==> now[start..w][k] == now[start + k];
  }

  /** Writes s and a NUL from index 0 on, as the source's spelled-out branches do. */
  method WriteTerminated(buffer: array<char>, s: string)
    requires |s| < buffer.Length
    modifies buffer
    ensures buffer[..|s| + 1] == s + [NUL]
    ensures buffer[|s| + 1..] == old(buffer[|s| + 1..])
  {
    forall i | 0 <= i < |s| {
      buffer[i] := s[i];
    }
    buffer[|s|] := NUL;
  }

  /**
   * The end of ItoA and XtoA: when the text fits, reverse its digits (written from
   * index `from` up to w) into place and put the NUL after them; otherwise leave an
   * empty text, a NUL at index 0.
   */
  method Terminate(buffer: array<char>, bufferSize: nat, from: nat, w: nat, ghost low: seq<char>)
    requires from <= w && |low| == w - from
    requires bufferSize <= buffer.Length && 1 <= buffer.Length
    requires w < bufferSize ==> buffer[from..w] == low
    modifies buffer
    ensures w < bufferSize ==>
              buffer[from..w] == Reverse(low) && buffer[w] == NUL &&
              buffer[..from] == old(buffer[..from]) && buffer[w + 1..] == old(buffer[w + 1..])
    ensures bufferSize <= w ==> buffer[0] == NUL && buffer[1..] == old(buffer[1..])
  {
    if w < bufferSize {
      ReverseBuffer(buffer, from, w - from);
      buffer[w] := NUL;
    } else {
      buffer[0] := NUL;
    }
  }

  /**
   * The part of ItoA and XtoA after the zero and minimum branches: the '-' of a
   * negative value (where bufferSize exceeds 1), the digits of its magnitude n least
   * significant first, then the reversal and the NUL, or an empty text.
   */
  method WriteNumeral(buffer: array<char>, bufferSize: nat, negative: bool, n: nat, base: nat, upper: bool)
    returns (w: nat)
    requires n > 0 && bufferSize <= buffer.Length && 1 <= buffer.Length && 2 <= base <= 16
    modifies buffer
    ensures w == (if negative then 1 else 0) + |LowFirst(n, base, upper)|
    ensures w < bufferSize ==>
              buffer[..w + 1] == (if negative then "-" else "") + Numeral(n, base, upper) + [NUL] &&
              buffer[w + 1..] == old(buffer[w + 1..])
    ensures bufferSize <= w ==>
              buffer[0] == NUL && forall j :: 1 <= j < buffer.Length && bufferSize <= j ==> buffer[j] == old(buffer[j])
  {
    ghost var orig := buffer[..];
    var start := WriteSign(buffer, bufferSize, negative);
    ghost var low := LowFirst(n, base, upper);
    ghost var before := buffer[..];
    w := WriteDigits(buffer, bufferSize, start, n, base, upper);
    ghost var mid := buffer[..];
    Terminate(buffer, bufferSize, start, w, low);
    if w < bufferSize {
      NumeralInPlace(buffer[..], start, w, negative, n, base, upper);
      TailKept(buffer[..], mid, before, orig, w);
    } else {
      ClippedKept(buffer[..], mid, before, orig, start, w, bufferSize);
    }
  }

  /** The '-' of a negative value, written where bufferSize exceeds 1; the digits start after it. */
  method WriteSign(buffer: array<char>, bufferSize: nat, negative: bool) returns (start: nat)
    requires 1 <= buffer.Length
    modifies buffer
    ensures start == (if negative then 1 else 0)
    ensures buffer[0] == (if negative && bufferSize > 1 then '-' else old(buffer[0]))
    ensures buffer[1..] == old(buffer[1..])
  {
    start := 0;
    if negative {
      if bufferSize > 1 {
        buffer[0] := '-';
      }
      start := 1;
    }
  }

  lemma TailKept(final: seq<char>, mid: seq<char>, before: seq<char>, orig: seq<char>, w: nat)
    requires w < |mid| == |before| == |orig| == |final|
    requires final[w + 1..] == mid[w + 1..] && mid[w..] == before[w..] && before[1..] == orig[1..]
    ensures final[w + 1..] == orig[w + 1..]
  {
    assert mid[w + 1..] == mid[w..][1..];
    assert before[w + 1..] == before[1..][w..];
    assert orig[w + 1..] == orig[1..][w..];
  }

  lemma ClippedKept(final: seq<char>, mid: seq<char>, before: seq<char>, orig: seq<char>,
                    start: nat, w: nat, bufferSize: nat)
    requires 1 <= |mid| == |before| == |orig| == |final|
    requires final[1..] == mid[1..] && before[1..] == orig[1..]
    requires forall j :: 0 <= j < |mid| && !(start <= j < w && j < bufferSize) ==> mid[j] == before[j]
    ensures forall j :: 1 <= j < |final| && bufferSize <= j ==> final[j] == orig[j]
  {
    forall j | 1 <= j < |final| && bufferSize <= j
      ensures final[j] == orig[j]
    {
      assert final[j] == final[1..][j - 1] == mid[1..][j - 1] == mid[j];
      assert before[j] == before[1..][j - 1] == orig[1..][j - 1] == orig[j];
    }
  }

  /** The sign, the reversed digits and the NUL in place make the signed numeral and its NUL. */
  lemma NumeralInPlace(final: seq<char>, start: nat, w: nat, negative: bool, n: nat, base: nat, upper: bool)
    requires 2 <= base <= 16 && start == (if negative then 1 else 0) && start <= w < |final|
    requires final[..start] == (if negative then "-" else "")
    requires final[start..w] == Reverse(LowFirst(n, base, upper)) && final[w] == NUL
    ensures final[..w + 1] == (if negative then "-" else "") + Numeral(n, base, upper) + [NUL]
  {
    SplitAt(final, start, w);
  }

  lemma SplitAt(b: seq<char>, start: nat, w: nat)
    requires start <= w < |b|
    ensures b[..w + 1] == b[..start] + b[start..w] + [b[w]]
  {
  }

  /**
   * ItoA's branch for the minimum of a signed type: the source spells the text
   * out, since negating the minimum overflows, and writes it only when it and
   * the NUL fit in bufferSize.
   */
  method WriteMinimum(buffer: array<char>, bufferSize: nat, v: int) returns (r: int)
    requires v < 0 && bufferSize <= buffer.Length
    modifies buffer
    ensures r == |DecimalText(v)|
    ensures |DecimalText(v)| < bufferSize ==>
              buffer[..|DecimalText(v)| + 1] == DecimalText(v) + [NUL] &&
              buffer[|DecimalText(v)| + 1..] == old(buffer[|DecimalText(v)| + 1..])
    ensures bufferSize <= |DecimalText(v)| ==> buffer[..] == old(buffer[..])
  {
    var text := DecimalText(v);
    if bufferSize >= |text| + 1 {
      WriteTerminated(buffer, text);
    }
    return |text|;
  }

  /**
   * ItoA(val, buffer, bufferSize): the decimal text of v and a NUL when they fit in
   * bufferSize; returns the length of the text, or 2 for zero.
   */
  method ItoA(t: IntType, v: int, buffer: array<char>, bufferSize: nat) returns (r: int)
    requires InRange(t, v)
    requires bufferSize <= buffer.Length && 1 <= buffer.Length
    modifies buffer
    ensures r == ItoALength(t, v)
    ensures |DecimalText(v)| < bufferSize ==>
              buffer[..|DecimalText(v)| + 1] == DecimalText(v) + [NUL] &&
              buffer[|DecimalText(v)| + 1..] == old(buffer[|DecimalText(v)| + 1..])
    ensures bufferSize <= |DecimalText(v)| && (v == 0 || v == MinOf(t)) ==> buffer[..] == old(buffer[..])
    ensures bufferSize <= |DecimalText(v)| && v != 0 && v != MinOf(t) ==>
              buffer[0] == NUL && forall j :: 1 <= j < buffer.Length && bufferSize <= j ==> buffer[j] == old(buffer[j])
  {
    if v == 0 {
      if bufferSize >= 2 {
        buffer[0] := '0';
        buffer[1] := NUL;
        assert buffer[..2] == DecimalText(0) + [NUL];
      }
      return 2;
    }
    if v < 0 && v == MinOf(t) {
      r := WriteMinimum(buffer, bufferSize, v);
      return;
    }
    var magnitude: nat := if v < 0 then -v else v;
    ghost var text := DecimalText(v);
    assert text == (if v < 0 then "-" else "") + Numeral(magnitude, 10, true) &&
           |text| == (if v < 0 then 1 else 0) + |LowFirst(magnitude, 10, true)| by {
      DecimalLength(v);
    }
    r := WriteNumeral(buffer, bufferSize, v < 0, magnitude, 10, true);
  }
  /** The value XtoA prints: the bits of v read as an unsigned number of the same width. */
  function AsUnsigned(t: IntType, v: int): (u: nat)
    requires InRange(t, v)
    ensures u < Modulus(t)
  {
    if v < 0 then v + Modulus(t) else v
  }

  /** The reverse conversion, from the unsigned reading back to a value of t. */
  function FromUnsigned(t: IntType, u: nat): int
    requires u < Modulus(t)
  {
    if Signed(t) && u > MaxOf(t) then u - Modulus(t) else u
  }

  /** Reading the bits back as t gives the value: no two values of t print alike. */
  lemma AsUnsignedRoundTrip(t: IntType, v: int)
    requires InRange(t, v)
    ensures FromUnsigned(t, AsUnsigned(t, v)) == v
  {
  }

  /** The text XtoA writes for v before the NUL: the hexadecimal digits of its unsigned reading. */
  function HexText(t: IntType, v: int, upper: bool): string
    requires InRange(t, v)
  {
    if v == 0 then "0" else Numeral(AsUnsigned(t, v), 16, upper)
  }

  /** Two hexadecimal digits per byte: sizeof(UInt) * 2. */
  function HexWidth(t: IntType): nat {
    if t == I8 || t == U8 then 2 else if t == I16 || t == U16 then 4 else if t == I32 || t == U32 then 8 else 16
  }

  lemma HexWidthPower(t: IntType)
    ensures Power(16, HexWidth(t)) == Modulus(t)
  {
    assert Power(16, 4) == 0x1_0000;
    assert Power(16, 8) == 0x1_0000_0000;
    assert Power(16, 16) == Power(16, 8) * Power(16, 8) by { PowerAdd(16, 8, 8); }
  }

  lemma {:induction false} PowerAdd(b: nat, j: nat, k: nat)
    ensures Power(b, j + k) == Power(b, j) * Power(b, k)
    decreases j
  {
    if j > 0 {
      PowerAdd(b, j - 1, k);
      assert Power(b, j + k) == b * (Power(b, j - 1) * Power(b, k));
    }
  }

  /** The hexadecimal text reads back as the unsigned value, and fits in two digits per byte. */
  lemma HexTextReadsBack(t: IntType, v: int, upper: bool)
    requires InRange(t, v)
    ensures ValueOf(HexText(t, v, upper), 16) == AsUnsigned(t, v)
    ensures 1 <= |HexText(t, v, upper)| <= HexWidth(t)
  {
    if v == 0 {
      assert ValueOf("0", 16) == ValueOf([], 16) * 16 + DigitValue('0');
    } else {
      NumeralRoundTrip(AsUnsigned(t, v), 16, upper);
      HexWidthPower(t);
      DigitCountAtMost(AsUnsigned(t, v), 16, upper, HexWidth(t));
    }
  }

  /**
   * XtoA<Uppercase>(val, buffer, bufferSize): the hexadecimal text of v's unsigned
   * reading and a NUL when they fit in bufferSize; returns the length of the text,
   * or 2 for zero.
   */
  method XtoA(t: IntType, v: int, upper: bool, buffer: array<char>, bufferSize: nat) returns (r: int)
    requires InRange(t, v)
    requires bufferSize <= buffer.Length && 1 <= buffer.Length
    modifies buffer
    ensures r == if v == 0 then 2 else |HexText(t, v, upper)|
    ensures |HexText(t, v, upper)| < bufferSize ==>
              buffer[..|HexText(t, v, upper)| + 1] == HexText(t, v, upper) + [NUL] &&
              buffer[|HexText(t, v, upper)| + 1..] == old(buffer[|HexText(t, v, upper)| + 1..])
    ensures bufferSize <= |HexText(t, v, upper)| && v == 0 ==> buffer[..] == old(buffer[..])
    ensures bufferSize <= |HexText(t, v, upper)| && v != 0 ==>
              buffer[0] == NUL && forall j :: 1 <= j < buffer.Length && bufferSize <= j ==> buffer[j] == old(buffer[j])
  {
    if v == 0 {
      if bufferSize >= 2 {
        buffer[0] := '0';
        buffer[1] := NUL;
        assert buffer[..2] == HexText(t, v, upper) + [NUL];
      }
      return 2;
    }
    var u := AsUnsigned(t, v);
    assert HexText(t, v, upper) == "" + Numeral(u, 16, upper);
    r := WriteNumeral(buffer, bufferSize, false, u, 16, upper);
  }
  // ---------------------------------------------------------------- ItoAP

  function Repeat(c: char, k: nat): (r: string)
    ensures |r| == k && forall i :: 0 <= i < k ==> r[i] == c
  {
    seq(k, _ => c)
  }

  /** The digits of v's magnitude in DecimalText: "0" for zero. */
  function MagnitudeText(v: int): string {
    if v == 0 then "0" else Numeral(if v < 0 then -v else v, 10, true)
  }

  lemma DecimalTextParts(v: int)
    ensures DecimalText(v) == (if v < 0 then "-" else "") + MagnitudeText(v)
    ensures MagnitudeText(v)[0] != '-'
  {
    if v != 0 {
      var m := if v < 0 then -v else v;
      NumeralDigits(m, 10, true);
      assert Numeral(m, 10, true)[0] in Numeral(m, 10, true);
    }
  }

  /**
   * The text ItoAP writes for v before the NUL: the sign of a negative value, then
   * pad characters, then the decimal digits, MaxCharCount(t) characters in all.
   */
  function PaddedText(t: IntType, v: int, pad: char): (r: string)
    requires InRange(t, v)
  {
    MaxCharCountBounds(t, v);
    (if v < 0 then "-" else "") + Repeat(pad, MaxCharCount(t) - |DecimalText(v)|) + MagnitudeText(v)
  }

  /** ValueOf skips leading zeros. */
  lemma {:induction false} ValueOfLeadingZeros(k: nat, s: string, base: nat)
    ensures ValueOf(Repeat('0', k) + s, base) == ValueOf(s, base)
    decreases |s|
  {
    if s == [] {
      ZerosValue(k, base);
      assert Repeat('0', k) + s == Repeat('0', k);
    } else {
      var init := s[..|s| - 1];
      assert (Repeat('0', k) + s)[..|Repeat('0', k) + s| - 1] == Repeat('0', k) + init;
      ValueOfLeadingZeros(k, init, base);
    }
  }

  lemma {:induction false} ZerosValue(k: nat, base: nat)
    ensures ValueOf(Repeat('0', k), base) == 0
  {
    if k > 0 {
      assert Repeat('0', k)[..k - 1] == Repeat('0', k - 1);
      ZerosValue(k - 1, base);
    }
  }

  /** The padded text has MaxCharCount(t) characters. */
  lemma PaddedTextLength(t: IntType, v: int, pad: char)
    requires InRange(t, v)
    ensures |PaddedText(t, v, pad)| == MaxCharCount(t)
  {
    MaxCharCountBounds(t, v);
    DecimalTextParts(v);
  }

  /** Zeros between the sign and the digits do not change the reading. */
  lemma ReadZeroPadded(sign: string, k: nat, digits: string)
    requires sign == "" || sign == "-"
    requires |digits| > 0 && digits[0] != '-'
    ensures ReadDecimal(sign + Repeat('0', k) + digits) == ReadDecimal(sign + digits)
  {
    var zeros := Repeat('0', k);
    var text := sign + zeros + digits;
    ValueOfLeadingZeros(k, digits, 10);
    if sign == "-" {
      assert text[1..] == zeros + digits;
      assert (sign + digits)[1..] == digits;
    } else {
      assert text == zeros + digits && sign + digits == digits;
      assert text[0] != '-' by {
        if k > 0 {
          assert text[0] == zeros[0];
        } else {
          assert text[0] == digits[0];
        }
      }
    }
  }

  /** Padded with '0', the text reads back as v. */
  lemma PaddedTextReadsBack(t: IntType, v: int)
    requires InRange(t, v)
    ensures ReadDecimal(PaddedText(t, v, '0')) == v
  {
    var sign := if v < 0 then "-" else "";
    var m := MagnitudeText(v);
    MaxCharCountBounds(t, v);
    var k := MaxCharCount(t) - |DecimalText(v)|;
    assert PaddedText(t, v, '0') == sign + Repeat('0', k) + m;
    assert ReadDecimal(sign + m) == v by {
      DecimalTextParts(v);
      DecimalRoundTrip(v);
    }
    assert |m| > 0 && m[0] != '-' by {
      DecimalTextParts(v);
    }
    ReadZeroPadded(sign, k, m);
  }

  /** Writes `pad` at the indices from `from` up to `to`, one at a time. */
  method Fill(buffer: array<char>, from: nat, to: nat, pad: char)
    requires from <= to <= buffer.Length
    modifies buffer
    ensures buffer[from..to] == Repeat(pad, to - from)
    ensures buffer[..from] == old(buffer[..from]) && buffer[to..] == old(buffer[to..])
  {
    var i := from;
    while i < to
      invariant from <= i <= to
      invariant forall j :: from <= j < i ==> buffer[j] == pad
      invariant forall j :: 0 <= j < from || i <= j < buffer.Length ==> buffer[j] == old(buffer[j])
    {
      buffer[i] := pad;
      i := i + 1;
    }
    assert forall j :: 0 <= j < to - from ==> buffer[from..to][j] == buffer[from + j];
  }
  lemma ReverseRepeat(c: char, k: nat)
    ensures Reverse(Repeat(c, k)) == Repeat(c, k)
  {
  }

  /** Digits least significant first followed by padding read back as the padding, then the numeral. */
  lemma ReversePadded(window: string, low: string, pad: char, k: nat)
    requires window == low + Repeat(pad, k)
    ensures Reverse(window) == Repeat(pad, k) + Reverse(low)
  {
    ReverseAppend(low, Repeat(pad, k));
    ReverseRepeat(pad, k);
  }

  /**
   * The part of ItoAP after the size, zero and minimum branches: the '-' of a
   * negative value, the digits of its magnitude n least significant first, pads up
   * to `count` characters, the reversal of all but the sign, and the NUL at `count`.
   */
  method WritePadded(buffer: array<char>, bufferSize: nat, negative: bool, n: nat, count: nat, pad: char)
    requires n > 0 && count < bufferSize <= buffer.Length
    requires (if negative then 1 else 0) + |LowFirst(n, 10, true)| <= count
    modifies buffer
    ensures buffer[..count + 1] ==
              (if negative then "-" else "") +
              Repeat(pad, count - (if negative then 1 else 0) - |LowFirst(n, 10, true)|) +
              Numeral(n, 10, true) + [NUL]
    ensures buffer[count + 1..] == old(buffer[count + 1..])
  {
    ghost var orig := buffer[..];
    ghost var sign: string := if negative then "-" else "";
    ghost var low := LowFirst(n, 10, true);
    ghost var pads := Repeat(pad, count - (if negative then 1 else 0) - |LowFirst(n, 10, true)|);
    var start := SignDigitsPadding(buffer, bufferSize, negative, n, count, pad);
    ghost var padded := buffer[..];
    var len := count - start;
    assert start + len == count;
    ReverseBuffer(buffer, start, len);
    ghost var reversed := buffer[..];
    assert reversed[start..count] == pads + Numeral(n, 10, true) by {
      ghost var window := padded[start..start + len];
      assert reversed[start..count] == Reverse(window);
      ReversePadded(window, low, pad, count - start - |low|);
    }
    buffer[count] := NUL;
    ghost var final := buffer[..];
    assert final[..start] == sign by {
      assert final[..start] == reversed[..start];
      assert reversed[..start] == padded[..start];
    }
    assert final[start..count] == pads + Numeral(n, 10, true) by {
      assert final[start..count] == reversed[start..count];
    }
    assert final[..count + 1] == sign + pads + Numeral(n, 10, true) + [NUL] by {
      SplitAt(final, start, count);
      assert sign + (pads + Numeral(n, 10, true)) == sign + pads + Numeral(n, 10, true);
    }
    assert final[count + 1..] == orig[count + 1..] by {
      assert final[count + 1..] == reversed[count + 1..];
      assert reversed[count + 1..] == padded[count + 1..];
    }
  }

  /**
   * The first half of ItoAP's digit path: the '-', the digits least
   * significant first, then the pad characters up to `count`. Returns where
   * the digits start.
   */
  method SignDigitsPadding(buffer: array<char>, bufferSize: nat, negative: bool, n: nat, count: nat, pad: char)
    returns (start: nat)
    requires n > 0 && count < bufferSize <= buffer.Length
    requires (if negative then 1 else 0) + |LowFirst(n, 10, true)| <= count
    modifies buffer
    ensures start == if negative then 1 else 0
    ensures buffer[..start] == (if negative then "-" else "")
    ensures buffer[start..count] ==
              LowFirst(n, 10, true) + Repeat(pad, count - start - |LowFirst(n, 10, true)|)
    ensures buffer[count..] == old(buffer[count..])
  {
    ghost var orig := buffer[..];
    ghost var sign: string := if negative then "-" else "";
    start := 0;
    if negative {
      buffer[0] := '-';
      start := 1;
    }
    ghost var signed := buffer[..];
    assert signed[..start] == sign && signed[count..] == orig[count..];
    ghost var low := LowFirst(n, 10, true);
    // The source's digit loop here has no bound test: MaxCharCount leaves room for every digit.
    var w := WriteDigits(buffer, bufferSize, start, n, 10, true);
    ghost var digits := buffer[..];
    assert digits[..start] == sign by {
      assert digits[..start] == signed[..start];
    }
    assert digits[count..] == orig[count..] by {
      assert digits[count..] == signed[count..];
    }
    Fill(buffer, w, count, pad);
    assert buffer[start..count] == low + Repeat(pad, count - w) by {
      assert buffer[start..count] == buffer[start..w] + buffer[w..count];
      assert buffer[start..w] == digits[start..w];
    }
    assert buffer[..start] == digits[..start];
    assert buffer[count..] == digits[count..];
  }

  /** Zero pads to its one digit. */
  lemma PaddedZero(t: IntType, pad: char)
    ensures MaxCharCount(t) >= 1
    ensures PaddedText(t, 0, pad) == Repeat(pad, MaxCharCount(t) - 1) + "0"
  {
    assert |DecimalText(0)| == 1;
  }

  /** The minimum of a signed type takes all of MaxCharCount: there is nothing to pad. */
  lemma PaddedMinimum(t: IntType, pad: char)
    requires Signed(t)
    ensures PaddedText(t, MinOf(t), pad) == DecimalText(MinOf(t))
    ensures |DecimalText(MinOf(t))| == MaxCharCount(t)
  {
    MaxCharCountReached(t);
    DecimalTextParts(MinOf(t));
    assert Repeat(pad, 0) == [];
  }

  /** The padded text of a nonzero value: the sign, the padding, then the digits of the magnitude. */
  lemma PaddedDigits(t: IntType, v: int, pad: char)
    requires InRange(t, v) && v != 0
    ensures (if v < 0 then 1 else 0) + |LowFirst(if v < 0 then -v else v, 10, true)| <= MaxCharCount(t)
    ensures PaddedText(t, v, pad) ==
            (if v < 0 then "-" else "") +
            Repeat(pad, MaxCharCount(t) - (if v < 0 then 1 else 0) - |LowFirst(if v < 0 then -v else v, 10, true)|) +
            Numeral(if v < 0 then -v else v, 10, true)
  {
    MaxCharCountBounds(t, v);
    DecimalLength(v);
  }

  /** ItoAP's zero case: count - 1 pad characters, '0' and a NUL. */
  method WritePaddedZero(buffer: array<char>, count: nat, pad: char)
    requires 1 <= count < buffer.Length
    modifies buffer
    ensures buffer[..count + 1] == Repeat(pad, count - 1) + "0" + [NUL]
    ensures buffer[count + 1..] == old(buffer[count + 1..])
  {
    Fill(buffer, 0, count - 1, pad);
    buffer[count - 1] := '0';
    buffer[count] := NUL;
    assert buffer[..count + 1] == buffer[..count - 1] + "0" + [NUL];
  }

  /**
   * ItoAP<PadChar>(val, buffer, bufferSize): when bufferSize leaves room for
   * MaxCharCount(t) characters and a NUL, the padded text of v and the NUL;
   * otherwise nothing. Returns MaxCharCount(t) either way.
   */
  method ItoAP(t: IntType, v: int, pad: char, buffer: array<char>, bufferSize: nat) returns (r: int)
    requires InRange(t, v)
    requires bufferSize <= buffer.Length
    modifies buffer
    ensures r == MaxCharCount(t)
    ensures bufferSize < MaxCharCount(t) + 1 ==> buffer[..] == old(buffer[..])
    ensures MaxCharCount(t) + 1 <= bufferSize ==>
              buffer[..MaxCharCount(t) + 1] == PaddedText(t, v, pad) + [NUL] &&
              buffer[MaxCharCount(t) + 1..] == old(buffer[MaxCharCount(t) + 1..])
  {
    var maxCharCount := MaxCharCount(t);
    if bufferSize < maxCharCount + 1 {
      return maxCharCount;
    }
    if v == 0 {
      PaddedZero(t, pad);
      WritePaddedZero(buffer, maxCharCount, pad);
      return maxCharCount;
    }
    if v < 0 && v == MinOf(t) {
      // The source spells the text out, since negating the minimum overflows.
      var text := DecimalText(v);
      PaddedMinimum(t, pad);
      WriteTerminated(buffer, text);
      return maxCharCount;
    }
    var magnitude: nat := if v < 0 then -v else v;
    PaddedDigits(t, v, pad);
    WritePadded(buffer, bufferSize, v < 0, magnitude, maxCharCount, pad);
    r := maxCharCount;
  }

  // ---------------------------------------------------------------- booleans

  function BoolText(b: bool): string {
    if b then "true" else "false"
  }

  /** Reads a boolean's text back: the reference reading of what BtoA writes. */
  function ReadBool(s: string): (r: Option<bool>)
    ensures r.Some? ==> s == BoolText(r.value)
  {
    if s == "true" then Some(true) else if s == "false" then Some(false) else None
  }

  /** The text of a boolean reads back as that boolean, and only its own text does. */
  lemma BoolTextRoundTrip(b: bool, s: string)
    ensures ReadBool(BoolText(b)) == Some(b)
    ensures ReadBool(s) == Some(b) <==> s == BoolText(b)
  {
  }

  /**
   * BtoA(val, buffer, bufferSize): "true" or "false" when it fits in bufferSize,
   * with no NUL after it; otherwise nothing. Returns the length of the text
   * either way.
   */
  method BtoA(val: bool, buffer: array<char>, bufferSize: nat) returns (r: int)
    requires bufferSize <= buffer.Length
    modifies buffer
    ensures r == |BoolText(val)|
    ensures r <= bufferSize ==> buffer[..r] == BoolText(val) && buffer[r..] == old(buffer[r..])
    ensures bufferSize < r ==> buffer[..] == old(buffer[..])
  {
    if val {
      if bufferSize >= 4 {
        buffer[0] := 't';
        buffer[1] := 'r';
        buffer[2] := 'u';
        buffer[3] := 'e';
      }
      return 4;
    } else {
      if bufferSize >= 5 {
        buffer[0] := 'f';
        buffer[1] := 'a';
        buffer[2] := 'l';
        buffer[3] := 's';
        buffer[4] := 'e';
      }
      return 5;
    }
  }
}
