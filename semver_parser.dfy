/*
 * SemVerParser (semver/SemVerParser.hpp): a recursive-descent parser from the
 * lexer's tokens to a constraint tree.
 *
 * The parser object holds the token vector, the current index and the error
 * message; Advance and Retreat move the index. Each method of the class is
 * proved against a function over (tokens, index) that says what it computes.
 * A null Ref is Null, and the error message is a ParseError, NoError standing
 * for the empty string.
 *
 * Parse as written does not terminate when the token at the current index is
 * a String or Error token (nothing in the loop consumes it). ParseLoopAsWritten
 * models that loop with fuel; ParseLoop, which the class implements, stops
 * there with the error UnexpectedToken instead.
 */
module SemVerParser {

  import opened SemVer
  import opened SemVerAst
  import opened SemVerLexer
  import Wrappers

  /** The messages m_Error can hold; NoError is the empty string. */
  datatype ParseError =
    | NoError
    | BangAtEof
    | BangWithoutEquals
    | GreaterAtEof
    | GreaterWithoutEquals
    | LessAtEof
    | LessWithoutEquals
    | UnexpectedCharacter(c: char)
    | OperatorAtEof
    | ExpectedMajor
    | MajorAtEof(major: U32)
    | ExpectedDot
    | DotAtEof(major: U32)
    | ExpectedMinor
    | PatchDotAtEof(major: U32, minor: U32)
    | ExpectedPatch
    | DashAtEof(major: U32, minor: U32, patch: U32)
    | ExpectedReleaseType
    | SinglePipe
    | OrAtEof
    | UnexpectedToken

  /** FactorFunc: the node constructor chosen by the constraint type. */
  datatype Factory = FEqual | FNotEqual | FGreater | FGreaterEqual | FLess | FLessEqual | FTilde | FCaret

  /** Applying the chosen constructor to the parsed version. */
  function Build(f: Factory, v: SemVer): (r: Constraint)
    ensures r != Null
    ensures r.And? <==> f == FTilde || f == FCaret
  {
    match f
    case FEqual => Equal(v)
    case FNotEqual => NotEqual(v)
    case FGreater => Greater(v)
    case FGreaterEqual => GreaterEqual(v)
    case FLess => Less(v)
    case FLessEqual => LessEqual(v)
    case FTilde => Tilde(v)
    case FCaret => Caret(v)
  }

  /** The release type a word names; any other word leaves None. */
  function ReleaseTypeOfWord(w: string): ReleaseType {
    if w == "alpha" then Alpha
    else if w == "beta" then Beta
    else if w == "gamma" then Gamma
    else if w == "rc" then ReleaseCandidate
    else None
  }

  /** Match(token, c32): the token is the Char token c. */
  function MatchChar(token: Token, c: char): (r: bool)
    ensures r <==> token == CharToken(c)
  {
    token.CharToken? && token.c == c
  }

  /** Match(token, u32): the token is the Number token i. */
  function MatchNumber(token: Token, i: U32): (r: bool)
    ensures r <==> token == NumberToken(i)
  {
    token.NumberToken? && token.n == i
  }

  // ---------------------------------------------------------------- what ParseConstraint computes

  datatype OperatorOutcome = OperatorParsed(factory: Factory, index: nat) | OperatorFailed(error: ParseError, index: nat)

  /** What the operator choice moves to before the closing Advance. */
  function OperatorChoice(ts: seq<Token>, i: nat, c: char): (r: OperatorOutcome)
    requires i < |ts|
    ensures i <= r.index < |ts|
  {
    var last := |ts| - 1;
    if c == '=' then OperatorParsed(FEqual, i)
    else if c == '!' then
      if i == last then OperatorFailed(BangAtEof, i)
      else if !MatchChar(ts[i + 1], '=') then OperatorFailed(BangWithoutEquals, i + 1)
      else OperatorParsed(FNotEqual, i + 1)
    else if c == '>' then
      if i == last then OperatorFailed(GreaterAtEof, i)
      else if ts[i + 1].CharToken? then
        if ts[i + 1].c != '=' then OperatorFailed(GreaterWithoutEquals, i + 1)
        else OperatorParsed(FGreaterEqual, i + 1)
      else OperatorParsed(FGreater, i)
    else if c == '<' then
      if i == last then OperatorFailed(LessAtEof, i)
      else if ts[i + 1].CharToken? then
        if ts[i + 1].c != '=' then OperatorFailed(LessWithoutEquals, i + 1)
        else OperatorParsed(FLessEqual, i + 1)
      else OperatorParsed(FLess, i)
    else if c == '~' then OperatorParsed(FTilde, i)
    else if c == '^' then OperatorParsed(FCaret, i)
    else OperatorFailed(UnexpectedCharacter(c), i)
  }

  /** The optional constraint type: the factory and the index of the version's first token. */
  function ParseOperatorAt(ts: seq<Token>, i: nat): (r: OperatorOutcome)
    requires i < |ts|
    ensures i <= r.index < |ts|
  {
    if !ts[i].CharToken? then OperatorParsed(FEqual, i)
    else
      var chosen := OperatorChoice(ts, i, ts[i].c);
      if chosen.OperatorFailed? then chosen
      else if chosen.index == |ts| - 1 then OperatorFailed(OperatorAtEof, chosen.index)
      else OperatorParsed(chosen.factory, chosen.index + 1)
  }

  datatype Outcome = Parsed(ast: Constraint, index: nat) | Failed(error: ParseError, index: nat)

  /** The optional "-word" release type after the numbers. */
  function ParseReleaseAt(ts: seq<Token>, k: nat, f: Factory, major: U32, minor: U32, patch: U32): (r: Outcome)
    requires k < |ts|
    ensures k <= r.index < |ts|
  {
    var last := |ts| - 1;
    if MatchChar(ts[k], '-') then
      if k == last then Failed(DashAtEof(major, minor, patch), k)
      else if !ts[k + 1].StringToken? then Failed(ExpectedReleaseType, k + 1)
      else
        var next := if k + 1 == last then k + 1 else k + 2;
        Parsed(Build(f, SemVer(major, minor, patch, ReleaseTypeOfWord(ts[k + 1].s), "1")), next)
    else Parsed(Build(f, SemVer(major, minor, patch, None, "1")), k)
  }

  /** The optional ".patch" after major.minor, then the release type. */
  function ParsePatchAt(ts: seq<Token>, j: nat, f: Factory, major: U32, minor: U32): (r: Outcome)
    requires j < |ts|
    ensures j <= r.index < |ts|
  {
    var last := |ts| - 1;
    if MatchChar(ts[j], '.') then
      if j == last then Failed(PatchDotAtEof(major, minor), j)
      else if !ts[j + 1].NumberToken? then Failed(ExpectedPatch, j + 1)
      else if j + 1 == last then Parsed(Build(f, SemVer(major, minor, ts[j + 1].n, None, "1")), j + 1)
      else ParseReleaseAt(ts, j + 2, f, major, minor, ts[j + 1].n)
    else ParseReleaseAt(ts, j, f, major, minor, 0)
  }

  /** The version number: major "." minor, then the optional patch and release type. */
  function ParseVersionAt(ts: seq<Token>, i: nat, f: Factory): (r: Outcome)
    requires i < |ts|
    ensures i <= r.index < |ts|
    ensures r.Parsed? ==> r.index >= i + 2
  {
    var last := |ts| - 1;
    if !ts[i].NumberToken? then Failed(ExpectedMajor, i)
    else if i == last then Failed(MajorAtEof(ts[i].n), i)
    else if !MatchChar(ts[i + 1], '.') then Failed(ExpectedDot, i + 1)
    else if i + 1 == last then Failed(DotAtEof(ts[i].n), i + 1)
    else if !ts[i + 2].NumberToken? then Failed(ExpectedMinor, i + 2)
    else if i + 2 == last then Parsed(Build(f, SemVer(ts[i].n, ts[i + 2].n, 0, None, "")), i + 2)
    else ParsePatchAt(ts, i + 3, f, ts[i].n, ts[i + 2].n)
  }

  /** ParseConstraint: a single version constraint starting at index i. */
  function ParseConstraintAt(ts: seq<Token>, i: nat): (r: Outcome)
    requires i < |ts|
    ensures i <= r.index < |ts|
    ensures r.Parsed? ==> r.index >= i + 2 && r.ast != Null
    ensures r.Failed? ==> r.error != NoError
  {
    var op := ParseOperatorAt(ts, i);
    if op.OperatorFailed? then Failed(op.error, op.index)
    else ParseVersionAt(ts, op.index, op.factory)
  }

  // ---------------------------------------------------------------- what Parse computes

  datatype ParseState = ParseState(ast: Constraint, index: nat, error: ParseError)

  /**
   * One turn of Parse's loop at index i after the constraint c: "||" joins the
   * next constraint with Or, a Char or Number token starts one joined with And.
   * A token of any other kind fails with UnexpectedToken (where the source loops).
   */
  function LoopStep(ts: seq<Token>, c: Constraint, i: nat): (r: Outcome)
    requires c != Null && i < |ts| - 1
    ensures i <= r.index < |ts|
    ensures r.Parsed? ==> i < r.index && r.ast != Null
    ensures r.Failed? ==> r.error != NoError
  {
    if MatchChar(ts[i], '|') then
      if !MatchChar(ts[i + 1], '|') then Failed(SinglePipe, i + 1)
      else if i + 1 == |ts| - 1 then Failed(OrAtEof, i + 1)
      else
        var next := ParseConstraintAt(ts, i + 2);
        if next.Failed? then next else Parsed(Or(c, next.ast), next.index)
    else if ts[i].CharToken? || ts[i].NumberToken? then
      var next := ParseConstraintAt(ts, i);
      if next.Failed? then next else Parsed(And(c, next.ast), next.index)
    else Failed(UnexpectedToken, i)
  }

  /** Parse's loop from constraint c at index i with message e. */
  function ParseLoop(ts: seq<Token>, c: Constraint, i: nat, e: ParseError): (r: ParseState)
    requires i < |ts|
    ensures r.index < |ts|
    decreases |ts| - i
  {
    if i >= |ts| - 1 then ParseState(c, i, e)
    else if c == Null then ParseState(Null, i, e)
    else
      var step := LoopStep(ts, c, i);
      if step.Failed? then ParseState(Null, step.index, step.error)
      else ParseLoop(ts, step.ast, step.index, e)
  }

  /** Parse from index i with message e: one constraint, then the loop. */
  function ParseFrom(ts: seq<Token>, i: nat, e: ParseError): ParseState
    requires i < |ts|
  {
    var first := ParseConstraintAt(ts, i);
    if first.Failed? then ParseLoop(ts, Null, first.index, first.error)
    else ParseLoop(ts, first.ast, first.index, e)
  }

  /** Parsing a fresh parser over ts. */
  function ParseTokens(ts: seq<Token>): ParseState
    requires |ts| >= 1
  {
    ParseFrom(ts, 0, NoError)
  }

  /**
   * Parse's loop as written, one unit of fuel per turn: None when the fuel runs
   * out. At a String, Error or Eof token a turn changes nothing.
   */
  function ParseLoopAsWritten(ts: seq<Token>, c: Constraint, i: nat, e: ParseError, fuel: nat): Wrappers.Option<ParseState>
    requires i < |ts|
    decreases fuel
  {
    if i >= |ts| - 1 then Wrappers.Some(ParseState(c, i, e))
    else if fuel == 0 then Wrappers.None
    else if c == Null then Wrappers.Some(ParseState(Null, i, e))
    else if !(ts[i].CharToken? || ts[i].NumberToken?) then ParseLoopAsWritten(ts, c, i, e, fuel - 1)
    else
      var step := LoopStep(ts, c, i);
      if step.Failed? then Wrappers.Some(ParseState(Null, step.index, step.error))
      else ParseLoopAsWritten(ts, step.ast, step.index, e, fuel - 1)
  }

  /** A fresh parser's Parse as written, given fuel for its loop. */
  function ParseTokensAsWritten(ts: seq<Token>, fuel: nat): Wrappers.Option<ParseState>
    requires |ts| >= 1
  {
    var first := ParseConstraintAt(ts, 0);
    if first.Failed? then ParseLoopAsWritten(ts, Null, first.index, first.error, fuel)
    else ParseLoopAsWritten(ts, first.ast, first.index, NoError, fuel)
  }

  // ---------------------------------------------------------------- the loop as written and as corrected

  /** At a String, Error or Eof token after a constraint, the loop as written never finishes. */
  lemma {:induction false} AsWrittenLoopsForever(ts: seq<Token>, c: Constraint, i: nat, e: ParseError, fuel: nat)
    requires i < |ts| - 1 && c != Null
    requires !(ts[i].CharToken? || ts[i].NumberToken?)
    ensures ParseLoopAsWritten(ts, c, i, e, fuel) == Wrappers.None
    decreases fuel
  {
    if fuel > 0 {
      AsWrittenLoopsForever(ts, c, i, e, fuel - 1);
    }
  }

  /** Whenever the loop as written finishes, it agrees with ParseLoop. */
  lemma {:induction false} AsWrittenAgrees(ts: seq<Token>, c: Constraint, i: nat, e: ParseError, fuel: nat)
    requires i < |ts|
    ensures ParseLoopAsWritten(ts, c, i, e, fuel).Some? ==>
              ParseLoopAsWritten(ts, c, i, e, fuel).value == ParseLoop(ts, c, i, e)
    decreases fuel
  {
    if i < |ts| - 1 && fuel > 0 && c != Null {
      if !(ts[i].CharToken? || ts[i].NumberToken?) {
        AsWrittenAgrees(ts, c, i, e, fuel - 1);
      } else {
        var step := LoopStep(ts, c, i);
        if step.Parsed? {
          AsWrittenAgrees(ts, step.ast, step.index, e, fuel - 1);
        }
      }
    }
  }

  /** When only Char and Number tokens lie ahead, the loop as written finishes, with ParseLoop's result. */
  lemma {:induction false} AsWrittenFinishes(ts: seq<Token>, c: Constraint, i: nat, e: ParseError, fuel: nat)
    requires i < |ts| && fuel >= |ts| - i
    requires forall k :: i <= k < |ts| - 1 ==> ts[k].CharToken? || ts[k].NumberToken?
    ensures ParseLoopAsWritten(ts, c, i, e, fuel) == Wrappers.Some(ParseLoop(ts, c, i, e))
    decreases |ts| - i
  {
    if i < |ts| - 1 && c != Null {
      var step := LoopStep(ts, c, i);
      if step.Parsed? {
        assert ParseLoopAsWritten(ts, c, i, e, fuel) == ParseLoopAsWritten(ts, step.ast, step.index, e, fuel - 1);
        assert ParseLoop(ts, c, i, e) == ParseLoop(ts, step.ast, step.index, e);
        AsWrittenFinishes(ts, step.ast, step.index, e, fuel - 1);
      }
    }
  }

  /** "1.0 x": the word after the version stops the loop as written for good. */
  lemma AsWrittenHangsExample(ts: seq<Token>, fuel: nat)
    requires ts == [NumberToken(1), CharToken('.'), NumberToken(0), ErrorToken(InvalidString("x")), StringToken("x")]
    ensures ParseTokensAsWritten(ts, fuel) == Wrappers.None
    ensures ParseTokens(ts) == ParseState(Null, 3, UnexpectedToken)
  {
    var v := SemVer(1, 0, 0, None, "1");
    assert ParseConstraintAt(ts, 0) == Parsed(Equal(v), 3) by {
      assert ParsePatchAt(ts, 3, FEqual, 1, 0) == ParseReleaseAt(ts, 3, FEqual, 1, 0, 0);
    }
    AsWrittenLoopsForever(ts, Equal(v), 3, NoError, fuel);
  }

  /** The text "1.0 x" lexes to the tokens of AsWrittenHangsExample. */
  lemma LexHangsExample(s: string)
    requires s == "1.0 x"
    ensures Lex(s) == [NumberToken(1), CharToken('.'), NumberToken(0), ErrorToken(InvalidString("x")), StringToken("x")]
  {
    var tail := [ErrorToken(InvalidString("x")), StringToken("x")];
    assert LexFrom(s, 3) == tail by {
      assert s[3] == ' ' && s[4] == 'x';
      assert LowerRunEnd(s, 4) == 5 && s[4..5] == "x";
      assert WordTokens("x") == tail;
      assert LexFrom(s, 4) == tail;
    }
    assert LexFrom(s, 2) == [NumberToken(0)] + LexFrom(s, 3) by {
      LexDigit(s, 2);
    }
    assert LexFrom(s, 1) == [CharToken('.')] + LexFrom(s, 2);
    assert LexFrom(s, 0) == [NumberToken(1)] + LexFrom(s, 1) by {
      LexDigit(s, 0);
    }
  }

  /** Parse returns Null exactly when it sets an error (from a fresh parser). */
  lemma {:induction false} LoopNullIffError(ts: seq<Token>, c: Constraint, i: nat)
    requires i < |ts| && c != Null
    ensures ParseLoop(ts, c, i, NoError).ast == Null <==> ParseLoop(ts, c, i, NoError).error != NoError
    decreases |ts| - i
  {
    if i < |ts| - 1 {
      var step := LoopStep(ts, c, i);
      if step.Parsed? {
        LoopNullIffError(ts, step.ast, step.index);
      }
    }
  }

  lemma NullIffError(ts: seq<Token>)
    requires |ts| >= 1
    ensures ParseTokens(ts).ast == Null <==> ParseTokens(ts).error != NoError
  {
    var first := ParseConstraintAt(ts, 0);
    if first.Parsed? {
      LoopNullIffError(ts, first.ast, first.index);
    }
  }

  // ---------------------------------------------------------------- the version numbers

  /** major.minor as the last tokens: patch 0 and metadata "", which ~ and ^ read as "no patch given". */
  lemma MinorAtEnd(ts: seq<Token>, i: nat, f: Factory)
    requires i + 2 == |ts| - 1
    requires ts[i].NumberToken? && ts[i + 1] == CharToken('.') && ts[i + 2].NumberToken?
    ensures ParseVersionAt(ts, i, f) == Parsed(Build(f, SemVer(ts[i].n, ts[i + 2].n, 0, None, "")), i + 2)
  {
  }

  /**
   * major.minor followed by a token other than '.' or '-': patch 0 but metadata "1",
   * so ~ and ^ bound it as if a patch had been given.
   */
  lemma MinorFollowed(ts: seq<Token>, i: nat, f: Factory)
    requires i + 3 < |ts|
    requires ts[i].NumberToken? && ts[i + 1] == CharToken('.') && ts[i + 2].NumberToken?
    requires ts[i + 3] != CharToken('.') && ts[i + 3] != CharToken('-')
    ensures ParseVersionAt(ts, i, f) == Parsed(Build(f, SemVer(ts[i].n, ts[i + 2].n, 0, None, "1")), i + 3)
  {
  }

  /** major.minor.patch not followed by '-': metadata "1", and parsing goes on after the patch. */
  lemma FullVersion(ts: seq<Token>, i: nat, f: Factory)
    requires i + 4 < |ts|
    requires ts[i].NumberToken? && ts[i + 1] == CharToken('.') && ts[i + 2].NumberToken?
    requires ts[i + 3] == CharToken('.') && ts[i + 4].NumberToken?
    requires i + 4 == |ts| - 1 || ts[i + 5] != CharToken('-')
    ensures ParseVersionAt(ts, i, f) ==
      Parsed(Build(f, SemVer(ts[i].n, ts[i + 2].n, ts[i + 4].n, None, "1")), if i + 4 == |ts| - 1 then i + 4 else i + 5)
  {
  }

  /** major.minor.patch-word: the release type the word names (None for any other word). */
  lemma FullVersionWithRelease(ts: seq<Token>, i: nat, f: Factory)
    requires i + 6 < |ts|
    requires ts[i].NumberToken? && ts[i + 1] == CharToken('.') && ts[i + 2].NumberToken?
    requires ts[i + 3] == CharToken('.') && ts[i + 4].NumberToken?
    requires ts[i + 5] == CharToken('-') && ts[i + 6].StringToken?
    ensures ParseVersionAt(ts, i, f) ==
      Parsed(Build(f, SemVer(ts[i].n, ts[i + 2].n, ts[i + 4].n, ReleaseTypeOfWord(ts[i + 6].s), "1")),
             if i + 6 == |ts| - 1 then i + 6 else i + 7)
  {
    assert ParsePatchAt(ts, i + 3, f, ts[i].n, ts[i + 2].n) == ParseReleaseAt(ts, i + 5, f, ts[i].n, ts[i + 2].n, ts[i + 4].n);
  }

  /** "~1.2" alone bounds below 2.0.0; followed by "< 3.0" the same "~1.2" bounds below 1.3.0. */
  lemma TildeBoundDependsOnWhatFollows(alone: seq<Token>, followed: seq<Token>)
    requires alone == [CharToken('~'), NumberToken(1), CharToken('.'), NumberToken(2)]
    requires followed == alone + [CharToken('<'), NumberToken(3), CharToken('.'), NumberToken(0)]
    ensures ParseConstraintAt(alone, 0).Parsed? && ParseConstraintAt(followed, 0).Parsed?
    ensures Execute(ParseConstraintAt(alone, 0).ast, SemVer(1, 5, 0, None, ""))
    ensures !Execute(ParseConstraintAt(followed, 0).ast, SemVer(1, 5, 0, None, ""))
  {
    SingleCharOperators(alone, 0);
    MinorAtEnd(alone, 1, FTilde);
    SingleCharOperators(followed, 0);
    MinorFollowed(followed, 1, FTilde);
  }

  /** Parse stops once the index reaches the last token, so a last token no constraint consumed is ignored. */
  lemma TrailingTokenIgnored(ts: seq<Token>)
    requires ts == [NumberToken(1), CharToken('.'), NumberToken(0), CharToken('~')]
    ensures ParseTokens(ts) == ParseState(Equal(SemVer(1, 0, 0, None, "1")), 3, NoError)
  {
    MinorFollowed(ts, 0, FEqual);
  }

  /** A constraint after a Number or non-'|' Char token joins with And, one after "||" with Or, left to right. */
  lemma JoinsLeftToRight(ts: seq<Token>, c: Constraint, i: nat, e: ParseError)
    requires c != Null && i + 2 < |ts|
    ensures (ts[i].NumberToken? || (ts[i].CharToken? && ts[i].c != '|')) && ParseConstraintAt(ts, i).Parsed? ==>
              ParseLoop(ts, c, i, e) == ParseLoop(ts, And(c, ParseConstraintAt(ts, i).ast), ParseConstraintAt(ts, i).index, e)
    ensures ts[i] == CharToken('|') && ts[i + 1] == CharToken('|') && ParseConstraintAt(ts, i + 2).Parsed? ==>
              ParseLoop(ts, c, i, e) == ParseLoop(ts, Or(c, ParseConstraintAt(ts, i + 2).ast), ParseConstraintAt(ts, i + 2).index, e)
  {
  }

  /** The words the lexer keeps whole are exactly the words that name a release type, and back. */
  lemma ReleaseWords(w: string, r: ReleaseType)
    ensures ReleaseTypeOfWord(w) != None <==> IsReleaseWord(w)
    ensures ReleaseTypeOfWord(ReleaseTypeToString(r)) == r
    ensures ReleaseTypeOfWord(w) != None ==> ReleaseTypeToString(ReleaseTypeOfWord(w)) == w
  {
  }

  // ---------------------------------------------------------------- the constraint types

  /** Without a constraint type the version is read at once and the node is Equal. */
  lemma NoOperatorMeansEqual(ts: seq<Token>, i: nat)
    requires i < |ts| && !ts[i].CharToken?
    ensures ParseConstraintAt(ts, i) == ParseVersionAt(ts, i, FEqual)
  {
  }

  /** "=", "~" and "^" choose Equal, Tilde and Caret and the version follows them. */
  lemma SingleCharOperators(ts: seq<Token>, i: nat)
    requires i + 1 < |ts|
    ensures ts[i] == CharToken('=') ==> ParseConstraintAt(ts, i) == ParseVersionAt(ts, i + 1, FEqual)
    ensures ts[i] == CharToken('~') ==> ParseConstraintAt(ts, i) == ParseVersionAt(ts, i + 1, FTilde)
    ensures ts[i] == CharToken('^') ==> ParseConstraintAt(ts, i) == ParseVersionAt(ts, i + 1, FCaret)
  {
  }

  /** "!" must be followed by "="; "!=" chooses NotEqual. */
  lemma BangOperator(ts: seq<Token>, i: nat)
    requires i < |ts| && ts[i] == CharToken('!')
    ensures i == |ts| - 1 ==> ParseConstraintAt(ts, i) == Failed(BangAtEof, i)
    ensures i + 1 < |ts| && ts[i + 1] != CharToken('=') ==> ParseConstraintAt(ts, i) == Failed(BangWithoutEquals, i + 1)
    ensures i + 2 < |ts| && ts[i + 1] == CharToken('=') ==> ParseConstraintAt(ts, i) == ParseVersionAt(ts, i + 2, FNotEqual)
  {
  }

  /**
   * ">" followed by "=" chooses GreaterEqual, followed by a token that is not a
   * Char chooses Greater (the parser steps back onto it), and followed by any
   * other Char fails.
   */
  lemma GreaterOperator(ts: seq<Token>, i: nat)
    requires i < |ts| && ts[i] == CharToken('>')
    ensures i == |ts| - 1 ==> ParseConstraintAt(ts, i) == Failed(GreaterAtEof, i)
    ensures i + 2 < |ts| && ts[i + 1] == CharToken('=') ==> ParseConstraintAt(ts, i) == ParseVersionAt(ts, i + 2, FGreaterEqual)
    ensures i + 1 < |ts| && !ts[i + 1].CharToken? ==> ParseConstraintAt(ts, i) == ParseVersionAt(ts, i + 1, FGreater)
    ensures i + 1 < |ts| && ts[i + 1].CharToken? && ts[i + 1].c != '=' ==>
              ParseConstraintAt(ts, i) == Failed(GreaterWithoutEquals, i + 1)
  {
  }

  /** "<" works as ">" does, with LessEqual and Less. */
  lemma LessOperator(ts: seq<Token>, i: nat)
    requires i < |ts| && ts[i] == CharToken('<')
    ensures i == |ts| - 1 ==> ParseConstraintAt(ts, i) == Failed(LessAtEof, i)
    ensures i + 2 < |ts| && ts[i + 1] == CharToken('=') ==> ParseConstraintAt(ts, i) == ParseVersionAt(ts, i + 2, FLessEqual)
    ensures i + 1 < |ts| && !ts[i + 1].CharToken? ==> ParseConstraintAt(ts, i) == ParseVersionAt(ts, i + 1, FLess)
    ensures i + 1 < |ts| && ts[i + 1].CharToken? && ts[i + 1].c != '=' ==>
              ParseConstraintAt(ts, i) == Failed(LessWithoutEquals, i + 1)
  {
  }

  /** Any other Char token where a constraint starts is an error. */
  lemma OtherCharFails(ts: seq<Token>, i: nat, c: char)
    requires i < |ts| && ts[i] == CharToken(c)
    requires c !in {'=', '!', '>', '<', '~', '^'}
    ensures ParseConstraintAt(ts, i) == Failed(UnexpectedCharacter(c), i)
  {
  }

  /** A missing major number, '.', or minor number fails with an error. */
  lemma MissingPartsFail(ts: seq<Token>, i: nat, f: Factory)
    requires i < |ts|
    ensures !ts[i].NumberToken? ==> ParseVersionAt(ts, i, f) == Failed(ExpectedMajor, i)
    ensures ts[i].NumberToken? && i == |ts| - 1 ==> ParseVersionAt(ts, i, f) == Failed(MajorAtEof(ts[i].n), i)
    ensures ts[i].NumberToken? && i + 1 < |ts| && ts[i + 1] != CharToken('.') ==>
              ParseVersionAt(ts, i, f) == Failed(ExpectedDot, i + 1)
    ensures ts[i].NumberToken? && i + 1 == |ts| - 1 && ts[i + 1] == CharToken('.') ==>
              ParseVersionAt(ts, i, f) == Failed(DotAtEof(ts[i].n), i + 1)
    ensures ts[i].NumberToken? && i + 2 < |ts| && ts[i + 1] == CharToken('.') && !ts[i + 2].NumberToken? ==>
              ParseVersionAt(ts, i, f) == Failed(ExpectedMinor, i + 2)
  {
  }

  // ---------------------------------------------------------------- the constraint of the validation test

  /** The tokens of ">=1.0.0 < 2.0.0 || ^3.15.0-rc" parse to Or(And(>=1.0.0, <2.0.0), ^3.15.0-rc). */
  lemma ValidateParses(ts: seq<Token>)
    requires |ts| == 23
    requires ts[0] == CharToken('>') && ts[1] == CharToken('=')
    requires ts[2] == NumberToken(1) && ts[3] == CharToken('.') && ts[4] == NumberToken(0)
    requires ts[5] == CharToken('.') && ts[6] == NumberToken(0)
    requires ts[7] == CharToken('<')
    requires ts[8] == NumberToken(2) && ts[9] == CharToken('.') && ts[10] == NumberToken(0)
    requires ts[11] == CharToken('.') && ts[12] == NumberToken(0)
    requires ts[13] == CharToken('|') && ts[14] == CharToken('|') && ts[15] == CharToken('^')
    requires ts[16] == NumberToken(3) && ts[17] == CharToken('.') && ts[18] == NumberToken(15)
    requires ts[19] == CharToken('.') && ts[20] == NumberToken(0)
    requires ts[21] == CharToken('-') && ts[22] == StringToken("rc")
    ensures ParseTokens(ts) == ParseState(ValidateConstraint(), 22, NoError)
  {
    var v1 := SemVer(1, 0, 0, None, "1");
    var v2 := SemVer(2, 0, 0, None, "1");
    var v3 := SemVer(3, 15, 0, ReleaseCandidate, "1");
    assert ParseConstraintAt(ts, 0) == Parsed(GreaterEqual(v1), 7) by {
      GreaterOperator(ts, 0);
      FullVersion(ts, 2, FGreaterEqual);
    }
    assert ParseConstraintAt(ts, 7) == Parsed(Less(v2), 13) by {
      LessOperator(ts, 7);
      FullVersion(ts, 8, FLess);
    }
    assert ParseConstraintAt(ts, 15) == Parsed(Caret(v3), 22) by {
      SingleCharOperators(ts, 15);
      FullVersionWithRelease(ts, 16, FCaret);
      assert ReleaseTypeOfWord(ts[22].s) == ReleaseCandidate;
    }
    var c := And(GreaterEqual(v1), Less(v2));
    assert LoopStep(ts, GreaterEqual(v1), 7) == Parsed(c, 13);
    assert LoopStep(ts, c, 13) == Parsed(Or(c, Caret(v3)), 22);
    assert ParseLoop(ts, c, 13, NoError) == ParseState(Or(c, Caret(v3)), 22, NoError);
    assert ParseLoop(ts, GreaterEqual(v1), 7, NoError) == ParseLoop(ts, c, 13, NoError);
  }

  /** What ">=1.0.0 < 2.0.0 || ^3.15.0-rc" parses to. */
  function ValidateConstraint(): Constraint {
    Or(And(GreaterEqual(SemVer(1, 0, 0, None, "1")), Less(SemVer(2, 0, 0, None, "1"))),
       Caret(SemVer(3, 15, 0, ReleaseCandidate, "1")))
  }

  /**
   * The parsed constraint accepts 1.2.15, 3.26.34754 and 3.15.0, and rejects
   * 2.0.0, 3.11.0, 3.15.0-beta, 4.0.0-beta, 4.0.0-rc and 4.0.0.
   */
  lemma ValidateExecutes(ast: Constraint)
    requires ast == ValidateConstraint()
    ensures Execute(ast, SemVer(1, 2, 15, None, ""))
    ensures Execute(ast, SemVer(3, 26, 34754, None, ""))
    ensures Execute(ast, SemVer(3, 15, 0, None, ""))
    ensures !Execute(ast, SemVer(2, 0, 0, None, ""))
    ensures !Execute(ast, SemVer(3, 11, 0, None, ""))
    ensures !Execute(ast, SemVer(3, 15, 0, Beta, ""))
    ensures !Execute(ast, SemVer(4, 0, 0, Beta, ""))
    ensures !Execute(ast, SemVer(4, 0, 0, ReleaseCandidate, ""))
    ensures !Execute(ast, SemVer(4, 0, 0, None, ""))
  {
  }

  // ---------------------------------------------------------------- the parser object

  class Parser {
    var tokens: seq<Token>
    var currentIndex: nat
    var error: ParseError

    /** The index is inside the token vector (so the vector is not empty). */
    predicate Valid()
      reads this
    {
      currentIndex < |tokens|
    }

    constructor(ts: seq<Token>)
      ensures tokens == ts && currentIndex == 0 && error == NoError
      ensures |ts| >= 1 ==> Valid()
    {
      tokens := ts;
      currentIndex := 0;
      error := NoError;
    }

    method Reset(ts: seq<Token>)
      modifies this
      ensures tokens == ts && currentIndex == 0 && error == NoError
    {
      tokens := ts;
      currentIndex := 0;
      error := NoError;
    }

    function Error(): (e: ParseError)
      reads this
      ensures e == error
    {
      error
    }

    function CurrentToken(): (t: Token)
      reads this
      requires Valid()
      ensures t == tokens[currentIndex]
    {
      tokens[currentIndex]
    }

    /** Moves to the next token unless the current one is the last. */
    method Advance() returns (moved: bool)
      requires Valid()
      modifies this
      ensures Valid() && tokens == old(tokens) && error == old(error)
      ensures moved <==> old(currentIndex) < |tokens| - 1
      ensures currentIndex == if moved then old(currentIndex) + 1 else old(currentIndex)
    {
      if currentIndex >= |tokens| - 1 {
        return false;
      }
      currentIndex := currentIndex + 1;
      return true;
    }

    /** Moves to the previous token unless the current one is the first. */
    method Retreat() returns (moved: bool)
      requires Valid()
      modifies this
      ensures Valid() && tokens == old(tokens) && error == old(error)
      ensures moved <==> old(currentIndex) > 0
      ensures currentIndex == if moved then old(currentIndex) - 1 else old(currentIndex)
    {
      if currentIndex == 0 {
        return false;
      }
      currentIndex := currentIndex - 1;
      return true;
    }

    /** The constraint type of ParseConstraint: the factory, or false with the error set. */
    method ParseOperator() returns (factory: Factory, ok: bool)
      requires Valid()
      modifies this
      ensures Valid() && tokens == old(tokens)
      ensures var r := ParseOperatorAt(tokens, old(currentIndex));
        && ok == r.OperatorParsed?
        && currentIndex == r.index
        && (ok ==> factory == r.factory && error == old(error))
        && (!ok ==> error == r.error)
    {
      factory := FEqual;
      ok := true;
      var token := CurrentToken();
      if !token.CharToken? {
        return;
      }
      var c := token.c;
      var moved;
      if c == '=' {
        factory := FEqual;
      } else if c == '!' {
        moved := Advance();
        if !moved {
          error := BangAtEof;
          return FEqual, false;
        }
        if !MatchChar(CurrentToken(), '=') {
          error := BangWithoutEquals;
          return FEqual, false;
        }
        factory := FNotEqual;
      } else if c == '>' {
        moved := Advance();
        if !moved {
          error := GreaterAtEof;
          return FEqual, false;
        }
        if CurrentToken().CharToken? {
          if CurrentToken().c != '=' {
            error := GreaterWithoutEquals;
            return FEqual, false;
          }
          factory := FGreaterEqual;
        } else {
          factory := FGreater;
          moved := Retreat();
        }
      } else if c == '<' {
        moved := Advance();
        if !moved {
          error := LessAtEof;
          return FEqual, false;
        }
        if CurrentToken().CharToken? {
          if CurrentToken().c != '=' {
            error := LessWithoutEquals;
            return FEqual, false;
          }
          factory := FLessEqual;
        } else {
          factory := FLess;
          moved := Retreat();
        }
      } else if c == '~' {
        factory := FTilde;
      } else if c == '^' {
        factory := FCaret;
      } else {
        error := UnexpectedCharacter(c);
        return FEqual, false;
      }
      moved := Advance();
      if !moved {
        error := OperatorAtEof;
        return factory, false;
      }
    }
    /** The version number of ParseConstraint, built with the chosen factory. */
    method ParseVersion(factory: Factory) returns (ast: Constraint)
      requires Valid()
      modifies this
      ensures Valid() && tokens == old(tokens)
      ensures var r := ParseVersionAt(tokens, old(currentIndex), factory);
        && currentIndex == r.index
        && (r.Parsed? ==> ast == r.ast && error == old(error))
        && (r.Failed? ==> ast == Null && error == r.error)
    {
      if !CurrentToken().NumberToken? {
        error := ExpectedMajor;
        return Null;
      }
      var majorVersion := CurrentToken().n;
      var moved := Advance();
      if !moved {
        error := MajorAtEof(majorVersion);
        return Null;
      }
      if !MatchChar(CurrentToken(), '.') {
        error := ExpectedDot;
        return Null;
      }
      moved := Advance();
      if !moved {
        error := DotAtEof(majorVersion);
        return Null;
      }
      if !CurrentToken().NumberToken? {
        error := ExpectedMinor;
        return Null;
      }
      var minorVersion := CurrentToken().n;
      moved := Advance();
      if !moved {
        // Metadata "" marks a version without a patch number for ~ and ^.
        return Build(factory, SemVer(majorVersion, minorVersion, 0, None, ""));
      }
      ast := ParsePatchAndRelease(factory, majorVersion, minorVersion);
    }

    /** The optional patch number and release type after major.minor. */
    method ParsePatchAndRelease(factory: Factory, majorVersion: U32, minorVersion: U32) returns (ast: Constraint)
      requires Valid()
      modifies this
      ensures Valid() && tokens == old(tokens)
      ensures var r := ParsePatchAt(tokens, old(currentIndex), factory, majorVersion, minorVersion);
        && currentIndex == r.index
        && (r.Parsed? ==> ast == r.ast && error == old(error))
        && (r.Failed? ==> ast == Null && error == r.error)
    {
      var moved;
      var patchVersion: U32 := 0;
      if MatchChar(CurrentToken(), '.') {
        moved := Advance();
        if !moved {
          error := PatchDotAtEof(majorVersion, minorVersion);
          return Null;
        }
        if !CurrentToken().NumberToken? {
          error := ExpectedPatch;
          return Null;
        }
        patchVersion := CurrentToken().n;
        moved := Advance();
        if !moved {
          return Build(factory, SemVer(majorVersion, minorVersion, patchVersion, None, "1"));
        }
      }
      ast := ParseRelease(factory, majorVersion, minorVersion, patchVersion);
    }

    /** The optional "-word" release type, then the constraint. */
    method ParseRelease(factory: Factory, majorVersion: U32, minorVersion: U32, patchVersion: U32)
      returns (ast: Constraint)
      requires Valid()
      modifies this
      ensures Valid() && tokens == old(tokens)
      ensures var r := ParseReleaseAt(tokens, old(currentIndex), factory, majorVersion, minorVersion, patchVersion);
        && currentIndex == r.index
        && (r.Parsed? ==> ast == r.ast && error == old(error))
        && (r.Failed? ==> ast == Null && error == r.error)
    {
      var releaseType := None;
      if MatchChar(CurrentToken(), '-') {
        var moved := Advance();
        if !moved {
          error := DashAtEof(majorVersion, minorVersion, patchVersion);
          return Null;
        }
        if !CurrentToken().StringToken? {
          error := ExpectedReleaseType;
          return Null;
        }
        releaseType := ReleaseTypeOfWord(CurrentToken().s);
        moved := Advance();
      }
      return Build(factory, SemVer(majorVersion, minorVersion, patchVersion, releaseType, "1"));
    }

    /** ParseConstraint: one constraint, or Null with the error set. */
    method ParseConstraint() returns (ast: Constraint)
      requires Valid()
      modifies this
      ensures Valid() && tokens == old(tokens)
      ensures var r := ParseConstraintAt(tokens, old(currentIndex));
        && currentIndex == r.index
        && (r.Parsed? ==> ast == r.ast && error == old(error))
        && (r.Failed? ==> ast == Null && error == r.error)
    {
      var factory, ok := ParseOperator();
      if !ok {
        return Null;
      }
      ast := ParseVersion(factory);
    }

    /**
     * One turn of Parse's loop after the constraint c: the constraint joined with
     * the next one, or stop with Null and the error set.
     */
    method ParseNext(c: Constraint) returns (joined: Constraint, stop: bool)
      requires Valid() && c != Null && currentIndex < |tokens| - 1
      modifies this
      ensures Valid() && tokens == old(tokens)
      ensures var r := LoopStep(tokens, c, old(currentIndex));
        && stop == r.Failed?
        && currentIndex == r.index
        && (r.Parsed? ==> joined == r.ast && error == old(error))
        && (r.Failed? ==> error == r.error)
    {
      joined := c;
      stop := true;
      var token := CurrentToken();
      if token.CharToken? {
        if token.c == '|' {
          var moved := Advance();
          // The loop condition leaves a token after this one, so the source's
          // "single '|' followed by EOF" error cannot be raised here.
          assert moved;
          if !MatchChar(CurrentToken(), '|') {
            error := SinglePipe;
            return;
          }
          moved := Advance();
          if !moved {
            error := OrAtEof;
            return;
          }
          var orConstraint := ParseConstraint();
          if orConstraint == Null {
            return;
          }
          joined, stop := Or(c, orConstraint), false;
        } else {
          var andConstraint := ParseConstraint();
          if andConstraint == Null {
            return;
          }
          joined, stop := And(c, andConstraint), false;
        }
      } else if token.NumberToken? {
        var andConstraint := ParseConstraint();
        if andConstraint == Null {
          return;
        }
        joined, stop := And(c, andConstraint), false;
      } else {
        // The source's loop makes no progress at this token and never ends.
        error := UnexpectedToken;
      }
    }

    /**
     * Parse: constraints joined left to right, with Or after "||" and And
     * otherwise, or Null with the error set.
     */
    method Parse() returns (ast: Constraint)
      requires Valid()
      modifies this
      ensures Valid() && tokens == old(tokens)
      ensures ParseState(ast, currentIndex, error) == ParseFrom(tokens, old(currentIndex), old(error))
    {
      ghost var goal := ParseFrom(tokens, currentIndex, error);
      var constraint := ParseConstraint();
      while currentIndex < |tokens| - 1
        invariant Valid() && tokens == old(tokens)
        invariant ParseLoop(tokens, constraint, currentIndex, error) == goal
        decreases |tokens| - currentIndex
      {
        if constraint == Null {
          return Null;
        }
        var stop;
        constraint, stop := ParseNext(constraint);
        if stop {
          return Null;
        }
      }
      return constraint;
    }
  }
}
