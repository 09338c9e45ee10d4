/*
 * SemVerLexer (semver/SemVerLexer.hpp): LexSemVer and the token kinds.
 *
 * The input is a sequence of code points. Column and Length stay 0 in every
 * token the lexer makes, so they are left out of Token. Error tokens carry
 * what their message is about (the offending word or character) rather
 * than the formatted text.
 */
module SemVerLexer {

  import opened SemVer
  import TUMaths

  datatype LexError = InvalidString(word: string) | InvalidCharacter(c: char)

  /** SemVerToken with its SemVerTokenType: Error, Eof, String, Char or Number. */
  datatype Token =
    | ErrorToken(error: LexError)
    | Eof
    | StringToken(s: string)
    | CharToken(c: char)
    | NumberToken(n: U32)

  const Modulus: nat := 0x1_0000_0000

  /** The characters that are a token of their own. */
  predicate IsOperator(c: char) {
    c == '=' || c == '!' || c == '<' || c == '>' || c == '|' || c == '.' || c == '-' || c == '~' || c == '^'
  }

  predicate IsDigit(c: char) {
    '0' <= c <= '9'
  }

  predicate IsLower(c: char) {
    'a' <= c <= 'z'
  }

  /** ReleaseTypeAlpha, ReleaseTypeBeta, ReleaseTypeGamma, ReleaseTypeReleaseCandidate. */
  predicate IsReleaseWord(w: string) {
    w == "alpha" || w == "beta" || w == "gamma" || w == "rc"
  }

  // ---------------------------------------------------------------- runs and their values

  /** The end of the run of digits starting at i. */
  function DigitRunEnd(s: string, i: nat): (j: nat)
    requires i <= |s|
    ensures i <= j <= |s| && (j == |s| || !IsDigit(s[j]))
    ensures forall k :: i <= k < j ==> IsDigit(s[k])
    decreases |s| - i
  {
    if i < |s| && IsDigit(s[i]) then DigitRunEnd(s, i + 1) else i
  }

  /** The end of the run of lower-case letters starting at i. */
  function LowerRunEnd(s: string, i: nat): (j: nat)
    requires i <= |s|
    ensures i <= j <= |s| && (j == |s| || !IsLower(s[j]))
    ensures forall k :: i <= k < j ==> IsLower(s[k])
    decreases |s| - i
  {
    if i < |s| && IsLower(s[i]) then LowerRunEnd(s, i + 1) else i
  }

  /** The decimal value of the digits s[i..j]. */
  function Decimal(s: string, i: nat, j: nat): nat
    requires i <= j <= |s| && forall k :: i <= k < j ==> IsDigit(s[k])
    decreases j - i
  {
    if j == i then 0
    else
      assert IsDigit(s[j - 1]);
      Decimal(s, i, j - 1) * 10 + (s[j - 1] as int - '0' as int)
  }

  // ---------------------------------------------------------------- the tokens of a text

  /** The tokens LexSemVer makes from position i on. */
  function LexFrom(s: string, i: nat): seq<Token>
    requires i <= |s|
    decreases |s| - i
  {
    if i == |s| then []
    else if s[i] == ' ' then LexFrom(s, i + 1)
    else if s[i] == '\0' then []
    else if IsOperator(s[i]) then [CharToken(s[i])] + LexFrom(s, i + 1)
    else if IsDigit(s[i]) then
      var j := DigitRunEnd(s, i);
      [NumberToken(Decimal(s, i, j) % Modulus)] + LexFrom(s, j)
    else if IsLower(s[i]) then
      var j := LowerRunEnd(s, i);
      WordTokens(s[i..j]) + LexFrom(s, j)
    else [ErrorToken(InvalidCharacter(s[i]))]
  }

  /** A word is a String token, preceded by an Error token unless it names a release type. */
  function WordTokens(w: string): (r: seq<Token>)
    ensures |r| >= 1 && r[|r| - 1] == StringToken(w)
    ensures |r| == 2 <==> !IsReleaseWord(w)
  {
    (if IsReleaseWord(w) then [] else [ErrorToken(InvalidString(w))]) + [StringToken(w)]
  }

  function Lex(s: string): seq<Token> {
    LexFrom(s, 0)
  }

  // ---------------------------------------------------------------- the lexer

  /** The u32 arithmetic of `currentInt *= 10; currentInt += digit`. */
  lemma WrapStep(a: int, d: int)
    requires a >= 0 && 0 <= d < 10
    ensures (((a % Modulus) * 10) % Modulus + d) % Modulus == (a * 10 + d) % Modulus
  {
    var q := a / Modulus;
    var r := a % Modulus;
    assert a * 10 + d == Modulus * (q * 10) + (r * 10 + d);
    var q2 := (r * 10) / Modulus;
    var r2 := (r * 10) % Modulus;
    assert r * 10 + d == Modulus * q2 + (r2 + d);
    if r2 + d < Modulus {
      TUMaths.DivModUnique(a * 10 + d, Modulus, q * 10 + q2, r2 + d);
      TUMaths.DivModUnique(r2 + d, Modulus, 0, r2 + d);
    } else {
      TUMaths.DivModUnique(a * 10 + d, Modulus, q * 10 + q2 + 1, r2 + d - Modulus);
      TUMaths.DivModUnique(r2 + d, Modulus, 1, r2 + d - Modulus);
    }
  }

  /** The inner do-while over a digit run: the run's end and its value in u32 arithmetic. */
  method LexNumber(str: string, start: nat) returns (currentInt: U32, i: nat)
    requires start < |str| && IsDigit(str[start])
    ensures i == DigitRunEnd(str, start)
    ensures currentInt == Decimal(str, start, i) % Modulus
  {
    currentInt := 0;
    i := start;
    var c := str[i];
    while true
      invariant start <= i < |str| && c == str[i] && IsDigit(c)
      invariant forall k :: start <= k < i ==> IsDigit(str[k])
      invariant currentInt == Decimal(str, start, i) % Modulus
      invariant DigitRunEnd(str, start) == DigitRunEnd(str, i)
      decreases |str| - i
    {
      WrapStep(Decimal(str, start, i), c as int - '0' as int);
      assert Decimal(str, start, i + 1) == Decimal(str, start, i) * 10 + (c as int - '0' as int);
      assert DigitRunEnd(str, i) == DigitRunEnd(str, i + 1);
      currentInt := (currentInt * 10) % Modulus;
      currentInt := (currentInt + (c as int - '0' as int)) % Modulus;
      i := i + 1;
      if i == |str| {
        break;
      }
      c := str[i];
      if !IsDigit(c) {
        break;
      }
    }
  }

  /** The inner do-while over a run of letters: the run's end and the word (the string builder). */
  method LexWord(str: string, start: nat) returns (word: string, i: nat)
    requires start < |str| && IsLower(str[start])
    ensures i == LowerRunEnd(str, start)
    ensures word == str[start..i]
  {
    word := [];
    i := start;
    var c := str[i];
    while true
      invariant start <= i < |str| && c == str[i] && IsLower(c)
      invariant word == str[start..i]
      invariant LowerRunEnd(str, start) == LowerRunEnd(str, i)
      decreases |str| - i
    {
      word := word + [c];
      i := i + 1;
      if i == |str| {
        break;
      }
      c := str[i];
      if !IsLower(c) {
        break;
      }
    }
  }

  /**
   * One turn of LexSemVer's loop at a character that is not a space or NUL: the
   * tokens it appends, where the next turn starts, and whether lexing stops.
   */
  method LexAt(str: string, i: nat) returns (emitted: seq<Token>, next: nat, stop: bool)
    requires i < |str| && str[i] != ' ' && str[i] != '\0'
    ensures i < next <= |str|
    ensures stop ==> emitted == LexFrom(str, i)
    ensures !stop ==> emitted + LexFrom(str, next) == LexFrom(str, i)
  {
    var c := str[i];
    stop := false;
    if IsOperator(c) {
      emitted := [CharToken(c)];
      next := i + 1;
    } else if IsDigit(c) {
      var currentInt;
      currentInt, next := LexNumber(str, i);
      emitted := [NumberToken(currentInt)];
    } else if IsLower(c) {
      var lexedString;
      lexedString, next := LexWord(str, i);
      emitted := [];
      if !IsReleaseWord(lexedString) {
        emitted := emitted + [ErrorToken(InvalidString(lexedString))];
      }
      emitted := emitted + [StringToken(lexedString)];
    } else {
      emitted := [ErrorToken(InvalidCharacter(c))];
      next := i + 1;
      stop := true;
    }
  }

  /** LexSemVer: the tokens of the text, with no Eof token at the end. */
  method LexSemVer(str: string) returns (tokens: seq<Token>)
    ensures tokens == Lex(str)
  {
    tokens := [];
    var i: nat := 0;
    while i < |str|
      invariant i <= |str|
      invariant tokens + LexFrom(str, i) == Lex(str)
      decreases |str| - i
    {
      ghost var before := tokens;
      var c := str[i];
      if c == ' ' {
        assert LexFrom(str, i) == LexFrom(str, i + 1);
        i := i + 1;
        continue;
      }
      if c == '\0' {
        assert LexFrom(str, i) == [];
        assert tokens + [] == tokens;
        break;
      }
      var emitted, next, stop := LexAt(str, i);
      tokens := tokens + emitted;
      if stop {
        assert tokens == before + LexFrom(str, i);
        break;
      }
      assert tokens + LexFrom(str, next) == before + (emitted + LexFrom(str, next));
      i := next;
    }
    if i == |str| {
      assert tokens + [] == tokens;
    }
  }
  // ---------------------------------------------------------------- what the tokens look like

  /** No token of the sequence is an invalid-character error. */
  predicate NoStop(ts: seq<Token>) {
    forall k :: 0 <= k < |ts| ==> !(ts[k].ErrorToken? && ts[k].error.InvalidCharacter?)
  }

  /**
   * The shape of a lexed sequence: there is no Eof token, every Char token is an
   * operator, an invalid character ends the sequence, and an invalid word is
   * followed by its String token.
   */
  predicate WellFormed(ts: seq<Token>) {
    && (forall k :: 0 <= k < |ts| ==> !ts[k].Eof?)
    && (forall k :: 0 <= k < |ts| && ts[k].CharToken? ==> IsOperator(ts[k].c))
    && (forall k :: 0 <= k < |ts| && ts[k].ErrorToken? && ts[k].error.InvalidCharacter? ==> k == |ts| - 1)
    && (forall k :: 0 <= k < |ts| && ts[k].ErrorToken? && ts[k].error.InvalidString? ==>
          k + 1 < |ts| && ts[k + 1] == StringToken(ts[k].error.word))
  }

  lemma WellFormedConcat(a: seq<Token>, b: seq<Token>)
    requires WellFormed(a) && NoStop(a) && WellFormed(b)
    ensures WellFormed(a + b)
  {
    var ab := a + b;
    assert forall k :: 0 <= k < |a| ==> ab[k] == a[k];
    assert forall k :: |a| <= k < |ab| ==> ab[k] == b[k - |a|];
  }

  lemma WordTokensWellFormed(w: string)
    ensures WellFormed(WordTokens(w)) && NoStop(WordTokens(w))
  {
  }

  /** Every sequence the lexer makes has the shape WellFormed describes. */
  lemma {:induction false} LexFromWellFormed(s: string, i: nat)
    requires i <= |s|
    ensures WellFormed(LexFrom(s, i))
    decreases |s| - i
  {
    if i == |s| || s[i] == '\0' {
    } else if s[i] == ' ' {
      LexFromWellFormed(s, i + 1);
    } else if IsOperator(s[i]) {
      LexFromWellFormed(s, i + 1);
      WellFormedConcat([CharToken(s[i])], LexFrom(s, i + 1));
    } else if IsDigit(s[i]) {
      var j := DigitRunEnd(s, i);
      LexFromWellFormed(s, j);
      WellFormedConcat([NumberToken(Decimal(s, i, j) % Modulus)], LexFrom(s, j));
    } else if IsLower(s[i]) {
      var j := LowerRunEnd(s, i);
      LexFromWellFormed(s, j);
      WordTokensWellFormed(s[i..j]);
      WellFormedConcat(WordTokens(s[i..j]), LexFrom(s, j));
    }
  }

  lemma LexWellFormed(s: string)
    ensures WellFormed(Lex(s))
  {
    LexFromWellFormed(s, 0);
  }
  /** An operator character is a Char token of its own. */
  lemma LexOperator(s: string, i: nat)
    requires i < |s| && IsOperator(s[i])
    ensures LexFrom(s, i) == [CharToken(s[i])] + LexFrom(s, i + 1)
  {
  }

  /** A space adds no token. */
  lemma LexSpace(s: string, i: nat)
    requires i < |s| && s[i] == ' '
    ensures LexFrom(s, i) == LexFrom(s, i + 1)
  {
  }

  /** A run of digits is one Number token of its value, taken modulo 2^32. */
  lemma LexDigitRun(s: string, i: nat)
    requires i < |s| && IsDigit(s[i])
    ensures LexFrom(s, i) == [NumberToken(Decimal(s, i, DigitRunEnd(s, i)) % Modulus)] + LexFrom(s, DigitRunEnd(s, i))
  {
  }

  /** A lone digit is a Number token of its value. */
  lemma LexDigit(s: string, i: nat)
    requires i < |s| && IsDigit(s[i]) && (i + 1 == |s| || !IsDigit(s[i + 1]))
    ensures LexFrom(s, i) == [NumberToken(s[i] as int - '0' as int)] + LexFrom(s, i + 1)
  {
    assert DigitRunEnd(s, i + 1) == i + 1;
    assert Decimal(s, i, i) == 0;
  }

  /** Two digits are one Number token of their decimal value. */
  lemma LexTwoDigits(s: string, i: nat)
    requires i + 1 < |s| && IsDigit(s[i]) && IsDigit(s[i + 1]) && (i + 2 == |s| || !IsDigit(s[i + 2]))
    ensures LexFrom(s, i) == [NumberToken((s[i] as int - '0' as int) * 10 + (s[i + 1] as int - '0' as int))] + LexFrom(s, i + 2)
  {
    assert DigitRunEnd(s, i) == i + 2 by {
      assert DigitRunEnd(s, i + 2) == i + 2;
      assert DigitRunEnd(s, i + 1) == i + 2;
    }
    var v := (s[i] as int - '0' as int) * 10 + (s[i + 1] as int - '0' as int);
    assert Decimal(s, i, i + 2) % Modulus == v by {
      assert Decimal(s, i, i) == 0;
      assert Decimal(s, i, i + 1) == s[i] as int - '0' as int;
      TUMaths.DivModUnique(v, Modulus, 0, v);
    }
    LexDigitRun(s, i);
  }

  // ---------------------------------------------------------------- examples

  /** "~1.2": an operator, then numbers around a dot. */
  lemma LexTildeExample(s: string)
    requires s == "~1.2"
    ensures Lex(s) == [CharToken('~'), NumberToken(1), CharToken('.'), NumberToken(2)]
  {
    assert DigitRunEnd(s, 1) == 2 && Decimal(s, 1, 2) == 1;
    assert DigitRunEnd(s, 3) == 4 && Decimal(s, 3, 4) == 2;
    assert LexFrom(s, 3) == [NumberToken(2)] + LexFrom(s, 4);
    assert LexFrom(s, 1) == [NumberToken(1)] + LexFrom(s, 2);
  }

  /** "1 beta x": a release word is one token, another word is an error and its string. */
  lemma LexWordsExample(s: string)
    requires s == "1 beta x"
    ensures Lex(s) == [NumberToken(1), StringToken("beta"), ErrorToken(InvalidString("x")), StringToken("x")]
  {
    var tail := [ErrorToken(InvalidString("x")), StringToken("x")];
    assert LexFrom(s, 6) == tail by {
      assert s[6] == ' ' && s[7] == 'x';
      assert LowerRunEnd(s, 7) == 8 && s[7..8] == "x";
      assert WordTokens("x") == tail;
      assert LexFrom(s, 7) == tail;
    }
    assert LexFrom(s, 2) == [StringToken("beta")] + tail by {
      assert LowerRunEnd(s, 6) == 6 && LowerRunEnd(s, 5) == 6 && LowerRunEnd(s, 4) == 6;
      assert LowerRunEnd(s, 3) == 6 && LowerRunEnd(s, 2) == 6 && s[2..6] == "beta";
      assert WordTokens("beta") == [StringToken("beta")];
    }
    assert s[0] == '1' && s[1] == ' ';
    assert DigitRunEnd(s, 0) == 1 && Decimal(s, 0, 0) == 0 && Decimal(s, 0, 1) == 1;
    assert LexFrom(s, 1) == LexFrom(s, 2);
  }

  /** An upper-case letter ends lexing: what follows it is not read. */
  lemma LexStopsExample(s: string)
    requires s == "1A.2"
    ensures Lex(s) == [NumberToken(1), ErrorToken(InvalidCharacter('A'))]
  {
    assert s[0] == '1' && s[1] == 'A';
    assert DigitRunEnd(s, 0) == 1 && Decimal(s, 0, 0) == 0 && Decimal(s, 0, 1) == 1;
    assert LexFrom(s, 1) == [ErrorToken(InvalidCharacter('A'))];
  }
}
