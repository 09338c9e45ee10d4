# TauUtils core in Dafny

A Dafny model of the core of TauUtils, a C++ utility library. It covers these parts:

- **Codecs.** The Base64 and Base32 codecs, with both alphabets, optional `=` padding and the optional NUL trailer.
- **Versions.** SemVer version numbers and their ordering, and the version-constraint language: its AST, lexer and parser.
- **Integer text.** `ToString`'s integer formatting: decimal, hexadecimal, padded and boolean.
- **Big integers.** The `BigInt` behind Dragon4, with 32-bit blocks and 35 blocks at most.
- **Bit maths.** The `TUMaths` routines: min/max, alignment, count of trailing and leading zeros, next power of two and integer log2.
- **Containers.** The AVL tree, the open-addressing hash table, the page-backed array list and the bit set.
- **Memory.** The shared reference counter and the ring allocator.
- **Paths.** The checks of the path sanitizer: prefix, device names, charset and dot directories.
- **Text.** The upper-case table of the Latin encoding.

**How the model is built.**

- **Records and pure functions** become datatypes and functions.
- **Objects that update their fields** become classes whose methods are proved against specification functions. These are `BigInt`, the parser, the AVL tree, the hash table, the array list, the bit set, the reference counter and the ring allocator.
- **Fixed-size buffers** the source writes in place (encoder and decoder outputs, `ToString` buffers, path buffers) stay arrays.
- **Machine integers** are unbounded `nat`/`int` with the wrap-around written out where the source depends on it. `uSys` is taken as 64 bits.
- **Source defects.** Where the source does something its authors evidently did not intend, both halves are in the model:
  - an as-written member with a lemma that shows the discrepancy on a concrete input;
  - the corrected member, which the rest of the model uses.

  See "## Findings".

Every file is one module, and every module follows one header or source file of the library.

## Model

| member | source | states |
|---|---|---|
| Encoding.ToUpper | TauUtilsDynamic/include/Encoding.hpp:62-95 | the capital is never above the code point, and it differs from the code point exactly for a small letter of the two Latin-1 blocks, an odd code point of an alternating Latin Extended block, or one of the five code points with a listed capital |
| Encoding.ToLower | TauUtilsDynamic/include/Encoding.hpp:97-100 | lower-casing returns every code point unchanged (the base class's behaviour) |
| Encoding.FixedCapitals | TauUtilsDynamic/include/Encoding.hpp:71-92 | the listed capitals: 0x3BC to 0xB5, 0x17F to 0x73, 0x253 to 0x181, 0x254 to 0x186, 0x188 to 0x187 |
| Encoding.ToUpperBlocks | TauUtilsDynamic/include/Encoding.hpp:64-80 | a small letter of 0x61-0x7A or 0xE0-0xFE moves down by 0x20; in an alternating block an odd code point moves down by one and an even one stays |
| Encoding.ToUpperIdempotentExceptLongS | TauUtilsDynamic/include/Encoding.hpp:62-95 | upper-casing twice gives the same as upper-casing once, for every code point except 0x17F |
| Encoding.LongSNotIdempotent | TauUtilsDynamic/include/Encoding.hpp:82-83 | as written, 0x17F upper-cases to 's' (0x73), which upper-cases again to 'S' |
| Encoding.DivisionSignMapped | TauUtilsDynamic/include/Encoding.hpp:65-68 | as written, DIVISION SIGN 0xF7 falls inside 0xE0-0xFE and is sent to MULTIPLICATION SIGN 0xD7 |
| Encoding.ToUpperCorrected | TauUtilsDynamic/include/Encoding.hpp:62-95 | the corrected table agrees with ToUpper everywhere except 0x17F and 0xF7, which it leaves as 'S' and unchanged |
| Encoding.ToUpperCorrectedIdempotent | TauUtilsDynamic/include/Encoding.hpp:62-95 | the corrected table is idempotent on every code point |
| SemVer.WrapAdd32 | TauUtilsDynamic/include/semver/SemVerConstraintAST.hpp:228-263 | u32 addition: the plain sum below 2^32, the sum less 2^32 otherwise |
| SemVer.GetOfMakeVersion | TauUtilsDynamic/include/semver/SemVer.hpp:10-28 | GetMajorVersion, GetMinorVersion and GetPatchVersion recover the three parts MakeVersion packed |
| SemVer.MakeVersionOfGet | TauUtilsDynamic/include/semver/SemVer.hpp:10-28 | every 32-bit value is the packing of its three parts |
| SemVer.ReleaseTypeToString | TauUtilsDynamic/include/semver/SemVer.hpp:40-50 | the release word is empty exactly for None |
| SemVer.VersionText | TauUtilsDynamic/include/semver/SemVer.hpp:188-211 | ToString gives the whole text in each of its four cases: the dotted numbers, then "-" and the release word unless the release type is None, then "+" and the metadata unless it is empty; the dotted numbers alone exactly when there is neither |
| SemVer.CoreTextReadsBack | TauUtilsDynamic/include/semver/SemVer.hpp:188-211 | the text splits at its two dots into three decimal numerals that read back as the major, minor and patch numbers |
| SemVer.FromPackedVersion | TauUtilsDynamic/include/semver/SemVer.hpp:131-177 | the constructors from a packed u32 give an 8-bit major, an 8-bit minor and a 16-bit patch, with the release type and metadata passed |
| SemVer.FromPackedVersionOfMake | TauUtilsDynamic/include/semver/SemVer.hpp:10-28 | building from MakeVersion(a, b, c) gives the version a.b.c |
| SemVer.KeyDeterminesCore | TauUtilsDynamic/include/semver/SemVer.hpp:249-278 | two versions have the same comparison key exactly when their numbers and release type agree |
| SemVer.LtIsKeyOrder | TauUtilsDynamic/include/semver/SemVer.hpp:249-278 | operator< is the lexicographic order on (major, minor, patch, reversed release ordinal) |
| SemVer.GtIsConverse | TauUtilsDynamic/include/semver/SemVer.hpp:280-309 | operator> holds exactly when operator< holds with the sides swapped |
| SemVer.LtIsStrictOrder | TauUtilsDynamic/include/semver/SemVer.hpp:249-278 | operator< is irreflexive, asymmetric and transitive |
| SemVer.Trichotomy | TauUtilsDynamic/include/semver/SemVer.hpp:215-309 | exactly one of a < b, a > b, or same numbers and release type holds |
| SemVer.OrderIgnoresMetadata | TauUtilsDynamic/include/semver/SemVer.hpp:249-309 | build metadata never changes operator< or operator> |
| SemVer.EqMeaning | TauUtilsDynamic/include/semver/SemVer.hpp:215-247 | operator== holds exactly when numbers and release type agree and the metadata agree or one side has none |
| SemVer.EqReflexiveSymmetric | TauUtilsDynamic/include/semver/SemVer.hpp:179-180 | operator== is reflexive and symmetric, and operator!= is its negation |
| SemVer.EqNotTransitive | TauUtilsDynamic/include/semver/SemVer.hpp:236-243 | operator== is not transitive: 1.0.0+a == 1.0.0 == 1.0.0+b but 1.0.0+a != 1.0.0+b |
| SemVer.NonStrictOrders | TauUtilsDynamic/include/semver/SemVer.hpp:184-185 | operator<= excludes >, operator>= excludes <, a <= b iff b >= a, and every pair is <, >=, or same core with differing metadata |
| SemVer.ReleaseTypeOrder | TauUtilsDynamic/include/semver/SemVer.hpp:30-38 | for equal numbers, alpha < beta < gamma < rc < release |
| SemVerAst.Tilde | TauUtilsDynamic/include/semver/SemVerConstraintAST.hpp:228-240 | Tilde is the conjunction of ">= the version" and "< an Alpha bound" |
| SemVerAst.Caret | TauUtilsDynamic/include/semver/SemVerConstraintAST.hpp:243-263 | Caret is the conjunction of ">= the version" and "< an Alpha bound" |
| SemVerAst.NullAndNotEqual | TauUtilsDynamic/include/semver/SemVerConstraintAST.hpp:335-364 | a null tree accepts no version, and a != node accepts exactly what the == node rejects |
| SemVerAst.OrderingNodes | TauUtilsDynamic/include/semver/SemVerConstraintAST.hpp:366-384 | the <, >, <= and >= nodes compare the executor's version with the node's target |
| SemVerAst.BelowNextMajor | TauUtilsDynamic/include/semver/SemVerConstraintAST.hpp:233 | a version lies below the Alpha of major+1 exactly when its major is at most major |
| SemVerAst.AtLeastMeansNotBelow | TauUtilsDynamic/include/semver/SemVerConstraintAST.hpp:233-261 | a version at least c has no smaller major, and no smaller minor or patch where the higher parts agree |
| SemVerAst.TildeWithoutPatch | TauUtilsDynamic/include/semver/SemVerConstraintAST.hpp:231-234 | ~M.m accepts exactly the versions at least M.m with the same major |
| SemVerAst.TildeWithPatch | TauUtilsDynamic/include/semver/SemVerConstraintAST.hpp:236-239 | ~M.m.p accepts exactly the versions at least M.m.p with the same major and minor |
| SemVerAst.CaretMajor | TauUtilsDynamic/include/semver/SemVerConstraintAST.hpp:258-262 | ^M.m.p with M > 0 accepts exactly the versions at least c with the same major |
| SemVerAst.CaretZeroWithoutPatch | TauUtilsDynamic/include/semver/SemVerConstraintAST.hpp:248-251 | ^0.m accepts exactly the versions at least 0.m with major 0 and the same minor |
| SemVerAst.CaretZeroWithPatch | TauUtilsDynamic/include/semver/SemVerConstraintAST.hpp:253-256 | ^0.m.p accepts exactly the versions at least 0.m.p with the same major, minor and patch |
| SemVerAst.TildeAtLargestMajor | TauUtilsDynamic/include/semver/SemVerConstraintAST.hpp:233 | with the largest u32 major the u32 bound wraps to 0.0.0-alpha, so ~ accepts nothing |
| SemVerAst.RangeAccepts | TauUtilsDynamic/include/semver/SemVerConstraintAST.hpp:371-389 | And(>= lo, <= hi) accepts every version between lo and hi, both ends included |
| SemVerAst.OutsideRejectsSelf | TauUtilsDynamic/include/semver/SemVerConstraintAST.hpp:376-394 | Or(< v, > v) rejects v itself |
| SemVerLexer.WordTokens | TauUtilsDynamic/include/semver/SemVerLexer.hpp:279-289 | a word ends in its String token, and is preceded by an Error token exactly when it is not alpha, beta, gamma or rc |
| SemVerLexer.WrapStep | TauUtilsDynamic/include/semver/SemVerLexer.hpp:240-245 | the u32 steps "times 10, plus the digit" agree with the whole decimal value taken modulo 2^32 |
| SemVerLexer.LexNumber | TauUtilsDynamic/include/semver/SemVerLexer.hpp:238-259 | the digit loop stops at the end of the digit run and yields the run's decimal value modulo 2^32 |
| SemVerLexer.LexWord | TauUtilsDynamic/include/semver/SemVerLexer.hpp:261-277 | the letter loop stops at the end of the run of lower-case letters and yields exactly those letters |
| SemVerLexer.LexAt | TauUtilsDynamic/include/semver/SemVerLexer.hpp:222-296 | one turn at a non-space, non-NUL character emits the tokens the lexing function gives there and continues or stops as it does |
| SemVerLexer.LexSemVer | TauUtilsDynamic/include/semver/SemVerLexer.hpp:200-302 | the method returns exactly the lexing function's tokens, with no Eof token |
| SemVerLexer.LexFromWellFormed | TauUtilsDynamic/include/semver/SemVerLexer.hpp:200-302 | every lexed sequence has no Eof, only operator Char tokens, an invalid character only last, and every invalid word followed by its String token |
| SemVerLexer.LexWellFormed | TauUtilsDynamic/include/semver/SemVerLexer.hpp:200-302 | the whole text lexes to a well-formed token sequence |
| SemVerLexer.LexOperator | TauUtilsDynamic/include/semver/SemVerLexer.hpp:222-234 | an operator character is a Char token of its own |
| SemVerLexer.LexSpace | TauUtilsDynamic/include/semver/SemVerLexer.hpp:212-215 | a space adds no token |
| SemVerLexer.LexDigitRun | TauUtilsDynamic/include/semver/SemVerLexer.hpp:238-259 | a run of digits is one Number token of its value modulo 2^32 |
| SemVerLexer.LexDigit | TauUtilsDynamic/include/semver/SemVerLexer.hpp:238-259 | a lone digit is a Number token of its value |
| SemVerLexer.LexTwoDigits | TauUtilsDynamic/include/semver/SemVerLexer.hpp:238-259 | two digits form one Number token of their decimal value |
| SemVerLexer.LexTildeExample | TauUtilsDynamic/include/semver/SemVerLexer.hpp:200-302 | "~1.2" lexes to ~, 1, ., 2 |
| SemVerLexer.LexWordsExample | TauUtilsDynamic/include/semver/SemVerLexer.hpp:261-291 | "1 beta x" lexes to 1, beta, an invalid-string error, x |
| SemVerLexer.LexStopsExample | TauUtilsDynamic/include/semver/SemVerLexer.hpp:292-296 | "1A.2" lexes to 1 and an invalid-character error; nothing after A is read |
| SemVerParser.Build | TauUtilsDynamic/include/semver/SemVerParser.hpp:124-326 | the factory makes a non-null node, an And exactly for ~ and ^ |
| SemVerParser.MatchChar | TauUtilsDynamic/include/semver/SemVerParser.hpp:353-361 | Match succeeds exactly on the Char token of that character |
| SemVerParser.MatchNumber | TauUtilsDynamic/include/semver/SemVerParser.hpp:363-371 | Match succeeds exactly on the Number token of that value |
| SemVerParser.ParseOperatorAt | TauUtilsDynamic/include/semver/SemVerParser.hpp:124-210 | the constraint type moves the index forward and never past the last token |
| SemVerParser.ParseReleaseAt | TauUtilsDynamic/include/semver/SemVerParser.hpp:289-326 | the release type moves the index forward and never past the last token |
| SemVerParser.ParsePatchAt | TauUtilsDynamic/include/semver/SemVerParser.hpp:258-287 | the patch number moves the index forward and never past the last token |
| SemVerParser.ParseVersionAt | TauUtilsDynamic/include/semver/SemVerParser.hpp:212-256 | a parsed version consumes at least major "." minor |
| SemVerParser.ParseConstraintAt | TauUtilsDynamic/include/semver/SemVerParser.hpp:124-326 | a parsed constraint is non-null and consumes at least three tokens; a failure always sets an error |
| SemVerParser.LoopStep | TauUtilsDynamic/include/semver/SemVerParser.hpp:50-112 | one turn of Parse's loop moves forward and joins a non-null constraint, or fails with an error |
| SemVerParser.ParseLoop | TauUtilsDynamic/include/semver/SemVerParser.hpp:50-114 | Parse's loop ends at an index inside the tokens |
| SemVerParser.AsWrittenLoopsForever | TauUtilsDynamic/include/semver/SemVerParser.hpp:50-112 | at a String, Error or Eof token after a constraint the loop as written never finishes |
| SemVerParser.AsWrittenAgrees | TauUtilsDynamic/include/semver/SemVerParser.hpp:50-114 | whenever the loop as written finishes, it agrees with the corrected loop |
| SemVerParser.AsWrittenFinishes | TauUtilsDynamic/include/semver/SemVerParser.hpp:50-114 | with only Char and Number tokens ahead the loop as written finishes, with the corrected loop's result |
| SemVerParser.AsWrittenHangsExample | TauUtilsDynamic/include/semver/SemVerParser.hpp:50-112 | the tokens of "1.0 x" make the loop as written run forever, while the corrected loop fails with UnexpectedToken |
| SemVerParser.LexHangsExample | TauUtilsDynamic/include/semver/SemVerLexer.hpp:200-302 | "1.0 x" lexes to 1, ., 0, an invalid-string error, x |
| SemVerParser.LoopNullIffError | TauUtilsDynamic/include/semver/SemVerParser.hpp:50-114 | the loop returns null exactly when it has set an error |
| SemVerParser.NullIffError | TauUtilsDynamic/include/semver/SemVerParser.hpp:46-114 | Parse returns null exactly when it sets an error |
| SemVerParser.MinorAtEnd | TauUtilsDynamic/include/semver/SemVerParser.hpp:252-256 | major.minor as the last tokens gives patch 0 and metadata "" |
| SemVerParser.MinorFollowed | TauUtilsDynamic/include/semver/SemVerParser.hpp:258-326 | major.minor followed by a token other than '.' or '-' gives patch 0 and metadata "1" |
| SemVerParser.FullVersion | TauUtilsDynamic/include/semver/SemVerParser.hpp:262-326 | major.minor.patch not followed by '-' gives metadata "1", and parsing goes on after the patch |
| SemVerParser.FullVersionWithRelease | TauUtilsDynamic/include/semver/SemVerParser.hpp:289-326 | major.minor.patch-word gives the release type the word names, None for any other word |
| SemVerParser.TildeBoundDependsOnWhatFollows | TauUtilsDynamic/include/semver/SemVerParser.hpp:252-283 | "~1.2" alone accepts 1.5.0, while "~1.2 < 3.0" rejects it |
| SemVerParser.TrailingTokenIgnored | TauUtilsDynamic/include/semver/SemVerParser.hpp:50 | a last token that no constraint consumed is ignored |
| SemVerParser.JoinsLeftToRight | TauUtilsDynamic/include/semver/SemVerParser.hpp:57-110 | a constraint after "\|\|" joins with Or, one after a Number or another Char joins with And, left to right |
| SemVerParser.ReleaseWords | TauUtilsDynamic/include/semver/SemVerParser.hpp:306-320 | the words read as release types are exactly the lexer's release words, and the word of each type reads back as that type |
| SemVerParser.NoOperatorMeansEqual | TauUtilsDynamic/include/semver/SemVerParser.hpp:126-130 | without a constraint type the version is read at once into an Equal node |
| SemVerParser.SingleCharOperators | TauUtilsDynamic/include/semver/SemVerParser.hpp:134-136 | "=", "~" and "^" choose Equal, Tilde and Caret, and the version follows them |
| SemVerParser.BangOperator | TauUtilsDynamic/include/semver/SemVerParser.hpp:137-149 | "!" needs a following "=", and "!=" chooses NotEqual |
| SemVerParser.GreaterOperator | TauUtilsDynamic/include/semver/SemVerParser.hpp:150-171 | ">=" chooses GreaterEqual, ">" before a non-Char token chooses Greater, ">" before another Char fails |
| SemVerParser.LessOperator | TauUtilsDynamic/include/semver/SemVerParser.hpp:172-193 | "<" behaves as ">" does, with LessEqual and Less |
| SemVerParser.OtherCharFails | TauUtilsDynamic/include/semver/SemVerParser.hpp:199-203 | any other Char token where a constraint starts is an error |
| SemVerParser.MissingPartsFail | TauUtilsDynamic/include/semver/SemVerParser.hpp:215-247 | a missing major, '.', or minor number fails with its own error |
| SemVerParser.ValidateParses | TauUtilsTest/src/SemVerParserTests.cpp:129-138 | the tokens of ">=1.0.0 < 2.0.0 \|\| ^3.15.0-rc" parse to Or(And(>=1.0.0, <2.0.0), ^3.15.0-rc) |
| SemVerParser.ValidateExecutes | TauUtilsTest/src/SemVerParserTests.cpp:140-202 | that constraint accepts 1.2.15, 3.26.34754 and 3.15.0, and rejects 2.0.0, 3.11.0, 3.15.0-beta, 4.0.0-beta, 4.0.0-rc and 4.0.0 |
| SemVerParser.Parser.constructor | TauUtilsDynamic/include/semver/SemVerParser.hpp:18-28 | a new parser holds the tokens at index 0 with no error |
| SemVerParser.Parser.Reset | TauUtilsDynamic/include/semver/SemVerParser.hpp:30-42 | Reset holds the new tokens at index 0 with no error |
| SemVerParser.Parser.Error | TauUtilsDynamic/include/semver/SemVerParser.hpp:44 | Error returns the stored error |
| SemVerParser.Parser.CurrentToken | TauUtilsDynamic/include/semver/SemVerParser.hpp:329 | CurrentToken is the token at the current index |
| SemVerParser.Parser.Advance | TauUtilsDynamic/include/semver/SemVerParser.hpp:331-340 | Advance moves on exactly when the current token is not the last |
| SemVerParser.Parser.Retreat | TauUtilsDynamic/include/semver/SemVerParser.hpp:342-351 | Retreat moves back exactly when the current token is not the first |
| SemVerParser.Parser.ParseOperator | TauUtilsDynamic/include/semver/SemVerParser.hpp:124-210 | the constraint-type step agrees with ParseOperatorAt on index, factory and error |
| SemVerParser.Parser.ParseVersion | TauUtilsDynamic/include/semver/SemVerParser.hpp:212-256 | the version step agrees with ParseVersionAt on index, node and error |
| SemVerParser.Parser.ParsePatchAndRelease | TauUtilsDynamic/include/semver/SemVerParser.hpp:258-287 | the patch step agrees with ParsePatchAt |
| SemVerParser.Parser.ParseRelease | TauUtilsDynamic/include/semver/SemVerParser.hpp:289-326 | the release step agrees with ParseReleaseAt |
| SemVerParser.Parser.ParseConstraint | TauUtilsDynamic/include/semver/SemVerParser.hpp:124-326 | ParseConstraint agrees with ParseConstraintAt on index, node and error |
| SemVerParser.Parser.ParseNext | TauUtilsDynamic/include/semver/SemVerParser.hpp:57-110 | one turn of the loop agrees with LoopStep |
| SemVerParser.Parser.Parse | TauUtilsDynamic/include/semver/SemVerParser.hpp:46-115 | Parse agrees with the parse function: the node, the final index and the error |
| RingAllocators.SlotOf | TauUtilsDynamic/include/allocator/RingAllocator.hpp:29-34 | the slot used is below the element count and never beyond the write index |
| RingAllocators.Advance | TauUtilsDynamic/include/allocator/RingAllocator.hpp:29-35 | after at least one allocation the write index is at least 1 and stays within the element count |
| RingAllocators.RingAllocator.NextSlot | TauUtilsDynamic/include/allocator/RingAllocator.hpp:29-34 | the next slot lies inside the pool |
| RingAllocators.RingAllocator.constructor | TauUtilsDynamic/include/allocator/RingAllocator.hpp:13-20 | the write index starts at 0, the element size is aligned up, and the byte count is the 64-bit product of size and count |
| RingAllocators.RingAllocator.Allocate | TauUtilsDynamic/include/allocator/RingAllocator.hpp:22-38 | a request larger than an element gets null and changes nothing; otherwise it gets the next slot's address and the write index moves past that slot |
| RingAllocators.RingAllocator.Deallocate | TauUtilsDynamic/include/allocator/RingAllocator.hpp:40-41 | deallocation changes nothing |
| RingAllocators.SlotAfter | TauUtilsDynamic/include/allocator/RingAllocator.hpp:22-38 | after n allocations the next slot is n places further round the ring |
| RingAllocators.SlotsRepeat | TauUtilsDynamic/include/allocator/RingAllocator.hpp:22-38 | the slots repeat with period elementCount |
| RingAllocators.DistinctWithinTurn | TauUtilsDynamic/include/allocator/RingAllocator.hpp:22-38 | within one turn of the ring no slot is handed out twice |
| ReferenceCounters.Counter.constructor | TauUtilsDynamic/include/ReferenceCounter.hpp:13-14 | a fresh counter holds its value and is not freed |
| ReferenceCounters.CountOf | TauUtilsDynamic/include/ReferenceCounter.hpp:68 | a missing counter reads 0 |
| ReferenceCounters.Dropped | TauUtilsDynamic/include/ReferenceCounter.hpp:79-85 | letting go decrements the count and frees once the count drops to 0 or below |
| ReferenceCounters.LastHolderFrees | TauUtilsDynamic/include/ReferenceCounter.hpp:79-85 | of n holders letting go in turn, exactly the last frees the counter |
| ReferenceCounters.ReferenceCounter.constructor | TauUtilsDynamic/include/ReferenceCounter.hpp:13-15 | default construction allocates a fresh counter holding 1 |
| ReferenceCounters.ReferenceCounter.Wrap | TauUtilsDynamic/include/ReferenceCounter.hpp:17-19 | wrapping an existing counter adds this holder to it |
| ReferenceCounters.ReferenceCounter.Null | TauUtilsDynamic/include/ReferenceCounter.hpp:21-23 | the null handle holds no counter |
| ReferenceCounters.ReferenceCounter.Copy | TauUtilsDynamic/include/ReferenceCounter.hpp:28-30 | copying shares the counter and counts one more holder |
| ReferenceCounters.ReferenceCounter.Move | TauUtilsDynamic/include/ReferenceCounter.hpp:32-34 | moving takes the counter and leaves the source without one |
| ReferenceCounters.ReferenceCounter.RefCount | TauUtilsDynamic/include/ReferenceCounter.hpp:68 | RefCount is the shared count, 0 without a counter |
| ReferenceCounters.ReferenceCounter.OnCopy | TauUtilsDynamic/include/ReferenceCounter.hpp:71-77 | OnCopy counts one more holder when there is a counter |
| ReferenceCounters.ReferenceCounter.OnDestroy | TauUtilsDynamic/include/ReferenceCounter.hpp:79-85 | OnDestroy counts one holder fewer and frees the counter once the count drops to 0 or below |
| ReferenceCounters.ReferenceCounter.Destroy | TauUtilsDynamic/include/ReferenceCounter.hpp:25-26 | the destructor lets go of this holder |
| ReferenceCounters.ReferenceCounter.CopyAssign | TauUtilsDynamic/include/ReferenceCounter.hpp:36-50 | copy assignment lets go of the held counter and shares the other's; self-assignment changes nothing |
| ReferenceCounters.ReferenceCounter.MoveAssign | TauUtilsDynamic/include/ReferenceCounter.hpp:52-66 | move assignment lets go of the held counter and takes the other's; self-assignment changes nothing |
| ReferenceCounters.CreateCopyDestroy | TauUtilsDynamic/include/ReferenceCounter.hpp:13-85 | a default handle reads 1, with a copy both read 2, after the copy goes 1, after the original goes the counter is freed |
| ReferenceCounters.CreateMoveDestroy | TauUtilsDynamic/include/ReferenceCounter.hpp:32-34 | after a move the source reads 0 and the new handle 1; destroying the source changes nothing, destroying the new one frees |
| ReferenceCounters.WrapDestroy | TauUtilsDynamic/include/ReferenceCounter.hpp:17-26 | wrapping a counter of k reads k + 1, and destroying the handle frees it exactly when k is at most 0 |
| BitSets.Fill | TauUtilsDynamic/include/BitSet.hpp:57 | memset with 0xFF or 0x00 makes every bit of the word the initial value |
| BitSets.Get | TauUtilsDynamic/include/BitSet.hpp:83-96 | a set bit lies in a word inside the array |
| BitSets.Assigned | TauUtilsDynamic/include/BitSet.hpp:98-111 | Set keeps the number of words |
| BitSets.Flipped | TauUtilsDynamic/include/BitSet.hpp:116-126 | Flip keeps the number of words |
| BitSets.Filled | TauUtilsDynamic/include/BitSet.hpp:54-57 | the constructor allocates bitCount / 64 + 1 words |
| BitSets.SetThenGet | TauUtilsDynamic/include/BitSet.hpp:98-111 | after Set(i, v) the bit at i reads v when i's word is in range |
| BitSets.SetKeepsOthers | TauUtilsDynamic/include/BitSet.hpp:98-111 | Set changes no bit but bit i |
| BitSets.FlipThenGet | TauUtilsDynamic/include/BitSet.hpp:116-126 | after Flip(i) the bit at i reads the opposite when i's word is in range |
| BitSets.FlipKeepsOthers | TauUtilsDynamic/include/BitSet.hpp:116-126 | Flip changes no bit but bit i |
| BitSets.FlipTwice | TauUtilsDynamic/include/BitSet.hpp:116-126 | flipping a bit twice restores the words |
| BitSets.OutOfRange | TauUtilsDynamic/include/BitSet.hpp:89-123 | beyond the last word Set and Flip change nothing and At reads false |
| BitSets.FilledGet | TauUtilsDynamic/include/BitSet.hpp:54-57 | every bit of a new set, up to the end of the last word, reads the initial value |
| BitSets.PaddingReadable | TauUtilsDynamic/include/BitSet.hpp:54-96 | a set of 10 bits built with true reads true at index 63, and index 64 lies beyond the array |
| BitSets.BitSet.constructor | TauUtilsDynamic/include/BitSet.hpp:54-57 | the bit count is kept and the words are the filled words |
| BitSets.BitSet.At | TauUtilsDynamic/include/BitSet.hpp:83-96 | At reads the bit of the words, false beyond the array |
| BitSets.BitSet.Set | TauUtilsDynamic/include/BitSet.hpp:98-111 | Set makes the words the assigned words |
| BitSets.BitSet.Unset | TauUtilsDynamic/include/BitSet.hpp:113-114 | Unset assigns false |
| BitSets.BitSet.Flip | TauUtilsDynamic/include/BitSet.hpp:116-126 | Flip makes the words the flipped words |
| PathText.At | TauUtilsDynamic/include/PathSanitizer.hpp:175-340 | reading at or past the length yields the NUL terminator |
| PathText.BeforeNul | TauUtilsDynamic/include/PathSanitizer.hpp:131-144 | the string of a NUL-terminated buffer is the part before its first NUL |
| PathCharset.Colons | TauUtilsDynamic/include/PathSanitizer.hpp:93-100 | the colon count never exceeds the length |
| PathCharset.ComponentStart | TauUtilsDynamic/include/PathSanitizer.hpp:102-123 | the component holding index i starts after the nearest separator before it |
| PathCharset.DotCheckIsComponentRule | TauUtilsDynamic/include/PathSanitizer.hpp:102-123 | the character-by-character dot test fails exactly when a component other than "." and ".." ends in '.' |
| PathCharset.CheckCharAt | TauUtilsDynamic/include/PathSanitizer.hpp:79-123 | one turn rejects only paths that break the charset rule and otherwise keeps the colon count |
| PathCharset.IsValidCharset | TauUtilsDynamic/include/PathSanitizer.hpp:73-128 | IsValidCharset decides the charset rule: no reserved character, at most one ':', no name ending in '.' |
| PathCharset.ControlCharactersPass | TauUtilsDynamic/include/PathSanitizer.hpp:79-80 | a path of control characters alone passes |
| PathCharset.SecondColonRejected | TauUtilsDynamic/include/PathSanitizer.hpp:93-100 | two ':' anywhere make the path invalid |
| PathCharset.TrailingDotRejected | TauUtilsDynamic/include/PathSanitizer.hpp:102-123 | a name ending in '.' before a separator is rejected |
| PathCharset.CharMatches | TauUtilsDynamic/include/PathSanitizer.hpp:131-144 | CharMatches is membership in the charset before its NUL |
| PathCharset.Replaced | TauUtilsDynamic/include/PathSanitizer.hpp:146-161 | the replacement keeps the length and swaps exactly the bad characters for the good one |
| PathCharset.ReplacedLeavesNoBad | TauUtilsDynamic/include/PathSanitizer.hpp:146-161 | no bad character is left when the good one is not bad |
| PathCharset.ReplacedIdempotent | TauUtilsDynamic/include/PathSanitizer.hpp:146-161 | replacing twice is replacing once |
| PathCharset.FixPathSeparator | TauUtilsDynamic/include/PathSanitizer.hpp:146-161 | a fresh buffer of length + 1 holds the replaced path and then NUL |
| PathCharset.ToWin32 | TauUtilsDynamic/include/PathSanitizer.hpp:163-164 | FixPathSeparatorWin32 leaves no '/' |
| PathCharset.ToNix | TauUtilsDynamic/include/PathSanitizer.hpp:166-167 | FixPathSeparatorNix leaves no '\' |
| PathCharset.NixAfterWin32 | TauUtilsDynamic/include/PathSanitizer.hpp:163-167 | going Win32 then Nix is going Nix |
| PathPrefix.Checked | TauUtilsDynamic/include/PathSanitizer.hpp:175-340 | an accepted path keeps its length and every character but the one at index 1 |
| PathPrefix.DoubleRootChecked | TauUtilsDynamic/include/PathSanitizer.hpp:183-267 | paths starting "\\\\" are never rewritten |
| PathPrefix.Prefix | TauUtilsDynamic/include/PathSanitizer.hpp:175-340 | the corrected check keeps the length of an accepted path |
| PathPrefix.NoColonAfterFirst | TauUtilsDynamic/include/PathSanitizer.hpp:261-303 | the scan accepts exactly when no ':' lies from index 1 on |
| PathPrefix.ValidateDoubleRoot | TauUtilsDynamic/include/PathSanitizer.hpp:183-267 | the "\\\\" branch agrees with the prefix function |
| PathPrefix.ValidatePathPrefix | TauUtilsDynamic/include/PathSanitizer.hpp:175-340 | the result and the buffer afterwards are the prefix function's; a rejected path is left as it was |
| PathPrefix.FormOf | TauUtilsDynamic/include/PathSanitizer.hpp:175-340 | the UNC and rooted forms have the shapes the branches test |
| PathPrefix.BlockedFormRejected | TauUtilsDynamic/include/PathSanitizer.hpp:175-340 | each Block flag rejects every path of its form |
| PathPrefix.BlockedDeviceDriveRejected | TauUtilsDynamic/include/PathSanitizer.hpp:200-245 | the drive forms inside the device namespaces are rejected by their own flags |
| PathPrefix.EmptyAndLoneRootRejected | TauUtilsDynamic/include/PathSanitizer.hpp:177-309 | the empty path and a lone "\\" are rejected under any settings |
| PathPrefix.ColonInUncOrRootedRejected | TauUtilsDynamic/include/PathSanitizer.hpp:261-303 | a UNC or rooted path holding ':' is rejected |
| PathPrefix.UncAndRootedAcceptedWithoutFlags | TauUtilsDynamic/include/PathSanitizer.hpp:256-303 | with no flag set a UNC or rooted path without ':' is accepted unchanged |
| PathPrefix.BypassRewritten | TauUtilsDynamic/include/PathSanitizer.hpp:272-289 | "\\??\\" is rewritten in place to "\\\\?\\" unless root local devices are blocked |
| PathPrefix.MalformedBypassRejected | TauUtilsDynamic/include/PathSanitizer.hpp:281-288 | a "\\?" not followed by "?\\" is rejected |
| PathPrefix.NonLetterDriveRejected | TauUtilsDynamic/include/PathSanitizer.hpp:207-253 | with the test corrected, a drive that is not a letter is rejected behind the device prefixes |
| PathPrefix.LetterDriveAccepted | TauUtilsDynamic/include/PathSanitizer.hpp:200-217 | a letter drive behind "\\\\.\\" is accepted under the default settings |
| PathPrefix.NonLetterDriveInertAsWritten | TauUtilsDynamic/include/PathSanitizer.hpp:207-253 | as written, BlockNonLetterDrive never changes the outcome, since path[2] is '.' or '?' there |
| PathPrefix.DigitDriveAcceptedAsWritten | TauUtilsDynamic/include/PathSanitizer.hpp:200-217 | as written, "\\\\.\\1:\\" passes the default settings; corrected, it is rejected |
| PathPrefix.ShortFormsAccepted | TauUtilsDynamic/include/PathSanitizer.hpp:312-339 | "C:" and "\\\\" alone are accepted even under the recommended settings |
| PathDevices.Chain | TauUtilsDynamic/include/PathSanitizer.hpp:376-547 | matching a word backwards never gives up on the path, and a failed match resumes left of letters only |
| PathDevices.Match | TauUtilsDynamic/include/PathSanitizer.hpp:376-547 | corrected, a match never gives up on the whole path, and a failed match resumes left of name characters only |
| PathDevices.SkipDigits | TauUtilsDynamic/include/PathSanitizer.hpp:366-369 | the digit skip stops at the first non-digit at or before i, or -1 |
| PathDevices.ResumeStep | TauUtilsDynamic/include/PathSanitizer.hpp:376-569 | a failed match hands the scan on to the character where it stopped |
| PathDevices.ContainsWin32Device | TauUtilsDynamic/include/PathSanitizer.hpp:345-569 | the buffer scan from the end returns exactly the corrected device rule, which DeviceIff characterises |
| PathDevices.ChainMatches | TauUtilsDynamic/include/PathSanitizer.hpp:376-547 | a word spelt from c, after '\\' or at the start, is matched from its last letter |
| PathDevices.ShortNameMatches | TauUtilsDynamic/include/PathSanitizer.hpp:366-452 | CON, PRN, AUX and NUL after '\\' or at the start are matched; COM and LPT exactly when digits were skipped after them, and otherwise the match resumes at their last letter |
| PathDevices.ConinMatches | TauUtilsDynamic/include/PathSanitizer.hpp:453-488 | CONIN$ after '\\' or at the start is matched |
| PathDevices.ConoutMatches | TauUtilsDynamic/include/PathSanitizer.hpp:489-520 | CONOUT$ after '\\' or at the start is matched |
| PathDevices.QuietRun | TauUtilsDynamic/include/PathSanitizer.hpp:549-566 | between a match and a delimiter the scan only moves left |
| PathDevices.SkipDigitsOver | TauUtilsDynamic/include/PathSanitizer.hpp:366-369 | the digit skip stops just before a run of digits |
| PathDevices.ReachDelimiter | TauUtilsDynamic/include/PathSanitizer.hpp:349-566 | a device ending just before a delimiter is found from anywhere right of it |
| PathDevices.NameThenDigitsFound | TauUtilsDynamic/include/PathSanitizer.hpp:366-547 | a device name after '\\' or at the start, followed by digits (at least one for COM and LPT), is found from the last digit |
| PathDevices.NameMatches | TauUtilsDynamic/include/PathSanitizer.hpp:366-547 | every device name after '\\' or at the start is matched at its last character, COM and LPT when digits follow |
| PathDevices.FoundAt | TauUtilsDynamic/include/PathSanitizer.hpp:366-547 | the scan at a possible end finds the device its digit skip lands on, telling the match whether digits were skipped |
| PathDevices.FoundPastDelimiter | TauUtilsDynamic/include/PathSanitizer.hpp:549-566 | a device found before a delimiter is found from the end |
| PathDevices.FoundFromEnd | TauUtilsDynamic/include/PathSanitizer.hpp:347-566 | a device found at the end or before a delimiter is found from the end |
| PathDevices.DeviceAtEndFound | TauUtilsDynamic/include/PathSanitizer.hpp:345-569 | a device name in any case after '\\' or at the start, then digits (at least one for COM and LPT), then the end or a delimiter, is found |
| PathDevices.SkipDigitsBack | TauUtilsDynamic/include/PathSanitizer.hpp:366-369 | the loop over the buffer stops where the digit-skip function does |
| PathDevices.ChainDevice | TauUtilsDynamic/include/PathSanitizer.hpp:376-547 | conversely, a word that matches from its last letter is spelt in any case from its start, which begins the path or follows '\\' |
| PathDevices.ShortDeviceEnds | TauUtilsDynamic/include/PathSanitizer.hpp:376-452 | a matched CON, PRN, AUX, NUL, COM or LPT followed by digits up to the end or a delimiter is a device name ending there |
| PathDevices.DollarDeviceEnds | TauUtilsDynamic/include/PathSanitizer.hpp:453-520 | a matched CONIN or CONOUT, then '$', then digits up to the end or a delimiter, is the device name CONIN$ or CONOUT$ ending there |
| PathDevices.MatchDevice | TauUtilsDynamic/include/PathSanitizer.hpp:366-547 | every match that reports a device at a possible end stands for a device name ending there |
| PathDevices.ScanFound | TauUtilsDynamic/include/PathSanitizer.hpp:349-566 | a scan that reports a device has passed a device name ending at the end of the path or before a delimiter |
| PathDevices.DeviceIff | TauUtilsDynamic/include/PathSanitizer.hpp:345-569 | the corrected scan finds a device if and only if some device name (COM and LPT with at least one digit), after '\\' or at the start and followed by digits, ends at the end of the path or before a delimiter |
| PathDevices.BareComLptNotDevices | TauUtilsDynamic/include/PathSanitizer.hpp:366 | "C:\\COM" and "C:\\LPT" hold no device: COM and LPT need a digit |
| PathDevices.BareComBeforeDelimiter | TauUtilsDynamic/include/PathSanitizer.hpp:544-550 | "C:\\COM.txt" holds no device although a delimiter follows COM |
| PathDevices.ComOneThen | TauUtilsDynamic/include/PathSanitizer.hpp:536-566 | "C:\\COM1" followed by nothing or by a delimiter and anything holds a device |
| PathDevices.DelimiterExamples | TauUtilsDynamic/include/PathSanitizer.hpp:536-566 | COM1, COM1:a, "COM1  :  a", "COM1.  a" and "COM1 a" hold a device |
| PathDevices.NonDelimiterExamples | TauUtilsDynamic/include/PathSanitizer.hpp:536-566 | COM1a and "COM1\\" hold none |
| PathDevices.NoDeviceAfter | TauUtilsDynamic/include/PathSanitizer.hpp:345-569 | "X:" followed by non-delimiters, ending in a character that is no digit and ends no name, holds no device |
| PathDevices.ShortEndMissedAsWritten | TauUtilsDynamic/include/PathSanitizer.hpp:371-374 | as written "NUL:" is not found, although it starts with the device NUL |
| PathDevices.ShortDollarMissedAsWritten | TauUtilsDynamic/include/PathSanitizer.hpp:453-460 | as written "NUL.$" is not found, although it starts with the device NUL |
| PathDevices.ComMissedAsWritten | TauUtilsDynamic/include/PathSanitizer.hpp:376-547 | as written "C:\\COM1" is not found: no case matches COM |
| PathDevices.LptMissedAsWritten | TauUtilsDynamic/include/PathSanitizer.hpp:376-547 | as written "C:\\LPT1" is not found: no case matches LPT |
| PathDots.Start | TauUtilsDynamic/include/PathSanitizer.hpp:576-588 | cleaning starts after "\\\\?\\" or "\\\\.\\", after the "\\\\" of a UNC path, else at 0 |
| PathDots.LastSep | TauUtilsDynamic/include/PathSanitizer.hpp:615-620 | the back scan stops at the last '\\' at or before k, or -1 |
| PathDots.Back | TauUtilsDynamic/include/PathSanitizer.hpp:612-635 | the ".." step keeps a strict prefix of the written path ending in '\\', or nothing |
| PathDots.Loop | TauUtilsDynamic/include/PathSanitizer.hpp:590-653 | corrected, the loop never underflows and writes no more than it reads; its "\\.\\" step rejects a '?' after the component and otherwise copies that character as written |
| PathDots.Clean | TauUtilsDynamic/include/PathSanitizer.hpp:571-657 | corrected cleaning never underflows and never lengthens the path; QuestionMarkRejected, NoDotsUnchanged and the examples state what it computes |
| PathDots.BackUp | TauUtilsDynamic/include/PathSanitizer.hpp:612-635 | the back scan on the buffer gives the length of the ".." step's result |
| PathDots.DotDirStep | TauUtilsDynamic/include/PathSanitizer.hpp:597-650 | the '.' branch drops a leading "." and a "\\..\\" component as the loop function does, and otherwise names the character the loop copies: the '.' itself, or the one after a "\\.\\" component |
| PathDots.CleanDotDirs | TauUtilsDynamic/include/PathSanitizer.hpp:571-657 | succeeds exactly when the loop function does, and then the buffer starts with the cleaned path and its NUL |
| PathDots.LoopRejects | TauUtilsDynamic/include/PathSanitizer.hpp:592-595 | the loop rejects exactly when a '?' lies ahead |
| PathDots.QuestionMarkRejected | TauUtilsDynamic/include/PathSanitizer.hpp:573-595 | cleaning fails exactly when a '?' follows the device prefix |
| PathDots.NoDotsUnchanged | TauUtilsDynamic/include/PathSanitizer.hpp:590-653 | a path with neither '.' nor '?' is left as it is |
| PathDots.ParentComponentRemoved | TauUtilsDynamic/include/PathSanitizer.hpp:605-637 | a ".." component removes the component before it |
| PathDots.CurrentComponentDropped | TauUtilsDynamic/include/PathSanitizer.hpp:605-608 | a "." component is dropped |
| PathDots.LeadingDotDropped | TauUtilsDynamic/include/PathSanitizer.hpp:645-648 | a '.' at index 0 is dropped whatever follows it |
| PathDots.QuestionMarkAfterDotPassesAsWritten | TauUtilsDynamic/include/PathSanitizer.hpp:605-608 | as written the character after "\\.\\" is copied unchecked, so a '?' there passes |
| PathDots.DotAfterCurrentCopied | TauUtilsDynamic/include/PathSanitizer.hpp:596-608 | the character after "\\.\\" is copied without a look at what it starts, as written and corrected alike: "a\\.\\.\\b" becomes "a\\.\\b" |
| PathDots.ParentOfNothingUnderflowsAsWritten | TauUtilsDynamic/include/PathSanitizer.hpp:612-635 | as written a ".." with nothing before it drives insert below 0 |
| ArrayLists.Range | TauUtilsDynamic/include/ArrayList.hpp:427-430 | the page indices from lo below hi |
| ArrayLists.Pages | TauUtilsDynamic/include/ArrayList.hpp:287-296 | the page indices below n |
| ArrayLists.Fresh | TauUtilsDynamic/include/ArrayList.hpp:287-296 | a new list has no elements and page 0 committed |
| ArrayLists.Grow | TauUtilsDynamic/include/ArrayList.hpp:353-469 | add, emplace and placement count one more element and its bytes |
| ArrayLists.Release | TauUtilsDynamic/include/ArrayList.hpp:471-480 | attemptRelease keeps the counters and releases at most the last committed page |
| ArrayLists.Shrink | TauUtilsDynamic/include/ArrayList.hpp:383-415 | corrected remove and removeFast count one element and its bytes fewer |
| ArrayLists.ShrinkAsWritten | TauUtilsDynamic/include/ArrayList.hpp:383-415 | as written remove and removeFast count one element fewer |
| ArrayLists.Cleared | TauUtilsDynamic/include/ArrayList.hpp:417-431 | clear leaves no elements and only the control block's bytes |
| ArrayLists.ClearAsWritten | TauUtilsDynamic/include/ArrayList.hpp:417-431 | as written clear leaves no elements and keeps committedPages |
| ArrayLists.ReservedPages | TauUtilsDynamic/include/ArrayList.hpp:287-289 | the corrected reservation covers the control block and maxElements elements, with less than a page to spare |
| ArrayLists.Removed | TauUtilsDynamic/include/ArrayList.hpp:400-415 | remove moves the elements after i down by one |
| ArrayLists.SwapRemoved | TauUtilsDynamic/include/ArrayList.hpp:383-398 | removeFast leaves one element fewer |
| ArrayLists.FreshSound | TauUtilsDynamic/include/ArrayList.hpp:287-296 | a new list's bookkeeping is sound |
| ArrayLists.GrowSound | TauUtilsDynamic/include/ArrayList.hpp:353-469 | adding an element that fits in a page keeps the bookkeeping sound |
| ArrayLists.GrowLargeElement | TauUtilsDynamic/include/ArrayList.hpp:461-469 | an element larger than a page outgrows the single page assertSize commits |
| ArrayLists.ReleaseSound | TauUtilsDynamic/include/ArrayList.hpp:471-480 | attemptRelease keeps the bookkeeping sound |
| ArrayLists.ShrinkSound | TauUtilsDynamic/include/ArrayList.hpp:383-480 | corrected remove and removeFast keep the bookkeeping sound |
| ArrayLists.ShrinkAsWrittenLast | TauUtilsDynamic/include/ArrayList.hpp:390-409 | removing the last element as written leaves its bytes counted, which breaks soundness |
| ArrayLists.ClearSound | TauUtilsDynamic/include/ArrayList.hpp:417-431 | corrected clear keeps the bookkeeping sound |
| ArrayLists.ClearAsWrittenReleasesLivePage | TauUtilsDynamic/include/ArrayList.hpp:427-430 | as written clear(true) on 66 committed pages releases page 64 while still counting it committed |
| ArrayLists.ReservationAsWrittenShort | TauUtilsDynamic/include/ArrayList.hpp:288 | as written 1023 elements of 8 bytes reserve 2 pages of 4096, which hold only 1016 |
| ArrayLists.ReservationHolds | TauUtilsDynamic/include/ArrayList.hpp:287-289 | the corrected reservation holds maxElements elements |
| ArrayLists.GuardAsWrittenWraps | TauUtilsDynamic/include/ArrayList.hpp:385-402 | the largest 64-bit index passes the guard index + 1 > count, whatever the count |
| ArrayLists.GuardRejectsBeyond | TauUtilsDynamic/include/ArrayList.hpp:385-402 | below the largest index the guard rejects exactly the indices at or beyond the count |
| ArrayLists.RemoveUndoesAppend | TauUtilsDynamic/include/ArrayList.hpp:353-415 | appending and then removing the last element gives the elements back |
| ArrayLists.SwapOut | TauUtilsDynamic/include/ArrayList.hpp:394 | moving the last element into the place of x loses exactly x |
| ArrayLists.SwapRemovedMultiset | TauUtilsDynamic/include/ArrayList.hpp:383-398 | removeFast loses exactly the removed element |
| ArrayLists.RemovedMultiset | TauUtilsDynamic/include/ArrayList.hpp:400-415 | remove loses exactly the removed element |
| ArrayLists.ArrayList.constructor | TauUtilsDynamic/include/ArrayList.hpp:287-296 | a new list has the fresh bookkeeping, no elements and room for maxElements |
| ArrayLists.ArrayList.Add | TauUtilsDynamic/include/ArrayList.hpp:353-358 | add appends val and keeps the list valid |
| ArrayLists.ArrayList.Emplace | TauUtilsDynamic/include/ArrayList.hpp:360-370 | emplace appends val and returns its index |
| ArrayLists.ArrayList.Placement | TauUtilsDynamic/include/ArrayList.hpp:372-381 | placement hands out the slot at the old count and counts it |
| ArrayLists.ArrayList.RemoveFast | TauUtilsDynamic/include/ArrayList.hpp:383-398 | removeFast changes nothing beyond the count, else moves the last element into the slot |
| ArrayLists.ArrayList.Remove | TauUtilsDynamic/include/ArrayList.hpp:400-415 | remove changes nothing beyond the count, else shifts the later elements down |
| ArrayLists.ArrayList.Clear | TauUtilsDynamic/include/ArrayList.hpp:417-431 | clear forgets every element and applies the corrected clear to the bookkeeping |
| ArrayLists.ArrayList.At | TauUtilsDynamic/include/ArrayList.hpp:433-439 | at returns the element, or null at or beyond the count |
| HashTables.SizesAscend | TauUtilsDynamic/include/ds/HashTable.hpp:66-77 | the bucket sizes strictly ascend |
| HashTables.Probe | TauUtilsDynamic/include/ds/HashTable.hpp:159-212 | probe q of hash code h lands inside the table, probe 0 at h mod n |
| HashTables.Vacants | TauUtilsDynamic/include/ds/HashTable.hpp:98-107 | a new bucket array holds only empty buckets |
| HashTables.FirstVacant | TauUtilsDynamic/include/ds/HashTable.hpp:206-216 | the probe found is an empty bucket within one 64-bit period |
| HashTables.Slot | TauUtilsDynamic/include/ds/HashTable.hpp:206-216 | the slot an insertion fills is an empty bucket of the table |
| HashTables.Entries | TauUtilsDynamic/include/ds/HashTable.hpp:245-253 | the stored entries are the buckets that are not tombstones |
| HashTables.RehomeFrom | TauUtilsDynamic/include/ds/HashTable.hpp:245-253 | re-homing keeps the size of the new bucket array |
| HashTables.Grown | TauUtilsDynamic/include/ds/HashTable.hpp:223-257 | growing moves to the next size and keeps the element count |
| HashTables.Prepared | TauUtilsDynamic/include/ds/HashTable.hpp:193-203 | the bookkeeping before an insertion counts one element more |
| HashTables.Inserted | TauUtilsDynamic/include/ds/HashTable.hpp:110-203 | an insertion counts one element more and keeps the table well formed |
| HashTables.FirstVacantFirst | TauUtilsDynamic/include/ds/HashTable.hpp:206-216 | KeyFunc's slot is the first empty bucket on the probe sequence |
| HashTables.FirstVacantReached | TauUtilsDynamic/include/ds/HashTable.hpp:206-216 | an empty bucket anywhere in the period is found, there or earlier |
| HashTables.LookMissing | TauUtilsDynamic/include/ds/HashTable.hpp:163-186 | a lookup meeting an empty bucket before any matching one returns null |
| HashTables.LookFound | TauUtilsDynamic/include/ds/HashTable.hpp:163-186 | a value Get returns is stored under the key and hash code it was asked for |
| HashTables.SentinelNeverFound | TauUtilsDynamic/include/ds/HashTable.hpp:19-174 | a key whose hash code is the tombstone value is never found |
| HashTables.AbsentMissing | TauUtilsDynamic/include/ds/HashTable.hpp:163-186 | a lookup of a key no entry carries returns null |
| HashTables.EntriesFill | TauUtilsDynamic/include/ds/HashTable.hpp:110-136 | filling an empty bucket adds exactly the new bucket to the entries |
| HashTables.FillFinds | TauUtilsDynamic/include/ds/HashTable.hpp:110-186 | after filling KeyFunc's slot a key the lookup missed is found with its value |
| HashTables.FillKeeps | TauUtilsDynamic/include/ds/HashTable.hpp:110-186 | filling an empty bucket keeps every successful lookup |
| HashTables.RehomeEntries | TauUtilsDynamic/include/ds/HashTable.hpp:245-253 | re-homing moves every entry, none lost and none added |
| HashTables.GrownEntries | TauUtilsDynamic/include/ds/HashTable.hpp:223-257 | growing keeps the entries |
| HashTables.RehomeFinds | TauUtilsDynamic/include/ds/HashTable.hpp:245-253 | after re-homing every entry is found where a lookup looks |
| HashTables.GrownFinds | TauUtilsDynamic/include/ds/HashTable.hpp:223-257 | with distinct keys, growing re-homes every entry where a lookup finds it |
| HashTables.GrownKeeps | TauUtilsDynamic/include/ds/HashTable.hpp:223-257 | with distinct keys, growing keeps every successful lookup |
| HashTables.PreparedEntries | TauUtilsDynamic/include/ds/HashTable.hpp:193-203 | the bookkeeping before an insertion keeps the entries |
| HashTables.InsertedSlot | TauUtilsDynamic/include/ds/HashTable.hpp:110-203 | an insertion fills KeyFunc's slot of the prepared table |
| HashTables.InsertedEntries | TauUtilsDynamic/include/ds/HashTable.hpp:110-136 | an insertion adds exactly the new entry, unless its hash code is the tombstone value |
| HashTables.InsertedFinds | TauUtilsDynamic/include/ds/HashTable.hpp:110-186 | after inserting a key no entry carries, Get finds the inserted value |
| HashTables.PreparedKeeps | TauUtilsDynamic/include/ds/HashTable.hpp:193-203 | with distinct keys, the bookkeeping before an insertion keeps every lookup |
| HashTables.InsertedKeeps | TauUtilsDynamic/include/ds/HashTable.hpp:110-186 | with distinct keys, every key found before an insertion is found after it with its value |
| HashTables.ProbeResidue | TauUtilsDynamic/include/ds/HashTable.hpp:159-212 | in 13 buckets a hash code of 13 probes only slots 0, 1, 3, 4, 9, 10 and 12 |
| HashTables.ProbeCycleMisses | TauUtilsDynamic/include/ds/HashTable.hpp:193-216 | with 7 of 13 buckets filled, below the growth threshold, such a key meets only full buckets on its first 2^32 probes |
| HashTables.HashTable.constructor | TauUtilsDynamic/include/ds/HashTable.hpp:88-108 | a new table has no elements, all buckets empty, and the first size at least minCount |
| HashTables.HashTable.FindNextBucketCount | TauUtilsDynamic/include/ds/HashTable.hpp:259-298 | the binary search gives the first size at least minCount, index 1 below the first size and the last index above the last size |
| HashTables.HashTable.KeyFunc | TauUtilsDynamic/include/ds/HashTable.hpp:206-221 | KeyFunc returns the first empty bucket on the probe sequence |
| HashTables.HashTable.Get | TauUtilsDynamic/include/ds/HashTable.hpp:163-191 | Get returns the lookup function's value, null or no return |
| HashTables.HashTable.Contains | TauUtilsDynamic/include/ds/HashTable.hpp:138-161 | Contains is true exactly when the lookup finds the key and false exactly when it meets an empty bucket |
| HashTables.HashTable.Rehome | TauUtilsDynamic/include/ds/HashTable.hpp:245-253 | the loop over the old buckets builds the re-homed array |
| HashTables.HashTable.Expand | TauUtilsDynamic/include/ds/HashTable.hpp:223-257 | Expand gives the grown table, or false where the source exits |
| HashTables.HashTable.PreInsert | TauUtilsDynamic/include/ds/HashTable.hpp:193-203 | PreInsert gives the prepared table and KeyFunc's slot |
| HashTables.HashTable.Insert | TauUtilsDynamic/include/ds/HashTable.hpp:110-136 | Insert gives the inserted table |
| AVL.Height | TauUtilsDynamic/include/ds/AVLTree.hpp:311-316 | a null subtree has height 0, a node its stored height |
| AVL.ComputeBalance | TauUtilsDynamic/include/ds/AVLTree.hpp:318-324 | the balance is left height minus right height, 0 for a null subtree |
| AVL.Depth | TauUtilsDynamic/include/ds/AVLTree.hpp:311-316 | the real height of a node is positive |
| AVL.Recompute | TauUtilsDynamic/include/ds/AVLTree.hpp:358 | recomputing a node's height keeps its children and items and makes the height one more than the taller child |
| AVL.RotateRight | TauUtilsDynamic/include/ds/AVLTree.hpp:283-295 | the rotation happens exactly when the pivot and its left child are nodes, keeps the in-order sequence, rewires the three subtrees and sets both heights |
| AVL.RotateLeft | TauUtilsDynamic/include/ds/AVLTree.hpp:297-309 | the mirror image of RotateRight |
| AVL.InsertBalance | TauUtilsDynamic/include/ds/AVLTree.hpp:358-383 | Insert's rebalancing keeps the in-order sequence |
| AVL.InsertAt | TauUtilsDynamic/include/ds/AVLTree.hpp:326-385 | a successful Insert leaves the in-order sequence of a plain search-tree insertion |
| AVL.RemoveBalance | TauUtilsDynamic/include/ds/AVLTree.hpp:443-468 | Remove's rebalancing keeps the in-order sequence |
| AVL.TakeMin | TauUtilsDynamic/include/ds/AVLTree.hpp:387-438 | the leftmost item followed by the rest is the in-order sequence |
| AVL.RemoveAt | TauUtilsDynamic/include/ds/AVLTree.hpp:404-470 | a successful Remove leaves the in-order sequence of the reference deletion |
| AVL.Without | TauUtilsDynamic/include/ds/AVLTree.hpp:404-470 | deleting items never lengthens the sequence |
| AVL.Search | TauUtilsDynamic/include/ds/AVLTree.hpp:216-233 | a found item carries the key and is stored in the tree |
| AVL.OrderedJoin | TauUtilsDynamic/include/ds/AVLTree.hpp:326-385 | ordered sides that x separates join into an ordered sequence |
| AVL.OrderedSplit | TauUtilsDynamic/include/ds/AVLTree.hpp:326-385 | an ordered sequence splits into ordered sides that x separates |
| AVL.PlacedFrom | TauUtilsDynamic/include/ds/AVLTree.hpp:326-356 | every item after an insertion was stored before or is the new one |
| AVL.PlacedOrdered | TauUtilsDynamic/include/ds/AVLTree.hpp:326-356 | an insertion keeps non-decreasing key order, and strictly increasing order under Ignore or Replace |
| AVL.PlacedAdds | TauUtilsDynamic/include/ds/AVLTree.hpp:326-356 | an insertion meeting no equal key, or under Greater or Lesser, adds exactly the item |
| AVL.AddedInside | TauUtilsDynamic/include/ds/AVLTree.hpp:326-356 | one side gaining an item makes the whole gain it |
| AVL.KeysWithin | TauUtilsDynamic/include/ds/AVLTree.hpp:326-356 | the keys of a part are keys of the whole |
| AVL.Substituted | TauUtilsDynamic/include/ds/AVLTree.hpp:342-349 | substitution keeps the length |
| AVL.SubstitutedJoin | TauUtilsDynamic/include/ds/AVLTree.hpp:342-349 | substitution distributes over concatenation |
| AVL.SubstitutedAbsent | TauUtilsDynamic/include/ds/AVLTree.hpp:342-349 | substituting an absent key changes nothing |
| AVL.WithoutJoin | TauUtilsDynamic/include/ds/AVLTree.hpp:404-470 | deletion distributes over concatenation |
| AVL.WithoutAbsent | TauUtilsDynamic/include/ds/AVLTree.hpp:404-470 | deleting an absent key deletes nothing |
| AVL.SeparatedKeys | TauUtilsDynamic/include/ds/AVLTree.hpp:404-470 | keys strictly on one side of k do not include k |
| AVL.PlacedExisting | TauUtilsDynamic/include/ds/AVLTree.hpp:337-349 | with a stored key, Ignore changes nothing and Replace swaps in the new item |
| AVL.WithoutLeft | TauUtilsDynamic/include/ds/AVLTree.hpp:411-412 | deleting a key below the separator only touches the left side |
| AVL.WithoutRight | TauUtilsDynamic/include/ds/AVLTree.hpp:413-414 | deleting a key above the separator only touches the right side |
| AVL.WithoutSeparator | TauUtilsDynamic/include/ds/AVLTree.hpp:415-438 | deleting the separator's key leaves the two sides joined |
| AVL.RemovedAscending | TauUtilsDynamic/include/ds/AVLTree.hpp:404-470 | with strictly increasing keys Remove deletes exactly the items with the key; an absent key changes nothing |
| AVL.RemovedFrom | TauUtilsDynamic/include/ds/AVLTree.hpp:404-470 | every item left by Remove was stored before |
| AVL.RemovedOrdered | TauUtilsDynamic/include/ds/AVLTree.hpp:404-470 | Remove keeps key order, strict or not |
| AVL.OrderedDrop | TauUtilsDynamic/include/ds/AVLTree.hpp:415-438 | dropping the separator of an ordered sequence leaves it ordered |
| AVL.SearchFinds | TauUtilsDynamic/include/ds/AVLTree.hpp:216-233 | in an ordered tree Find reaches a stored key |
| AVL.MeasuredGrounded | TauUtilsDynamic/include/ds/AVLTree.hpp:358 | a recomputed node over grounded subtrees is grounded, at height one or more |
| AVL.RotateRightGrounded | TauUtilsDynamic/include/ds/AVLTree.hpp:283-295 | rotating right a grounded tree succeeds and stays grounded |
| AVL.RotateLeftGrounded | TauUtilsDynamic/include/ds/AVLTree.hpp:297-309 | rotating left a grounded tree succeeds and stays grounded |
| AVL.RemoveBalanceGrounded | TauUtilsDynamic/include/ds/AVLTree.hpp:443-468 | Remove's rebalancing never meets a null child when no height is negative |
| AVL.TakeMinGrounded | TauUtilsDynamic/include/ds/AVLTree.hpp:387-402 | unlinking the minimum keeps a tree grounded |
| AVL.RemoveGrounded | TauUtilsDynamic/include/ds/AVLTree.hpp:404-470 | Remove never meets a null child in a grounded tree, and keeps it grounded |
| AVL.InsertBalanceGrounded | TauUtilsDynamic/include/ds/AVLTree.hpp:358-383 | Insert's rebalancing, when it succeeds, leaves no negative height |
| AVL.InsertGrounded | TauUtilsDynamic/include/ds/AVLTree.hpp:326-385 | a successful Insert of a node born with a non-negative height leaves no negative height |
| AVL.MeasuredExact | TauUtilsDynamic/include/ds/AVLTree.hpp:358 | a recomputed node over exact subtrees is exact |
| AVL.RotateRightExact | TauUtilsDynamic/include/ds/AVLTree.hpp:283-295 | rotating right keeps heights exact |
| AVL.RotateLeftExact | TauUtilsDynamic/include/ds/AVLTree.hpp:297-309 | rotating left keeps heights exact |
| AVL.SingleRightAVL | TauUtilsDynamic/include/ds/AVLTree.hpp:362-364 | the left-left case: one right rotation rebalances |
| AVL.DoubleRightAVL | TauUtilsDynamic/include/ds/AVLTree.hpp:370-375 | the left-right case: rotating the child left and the node right rebalances |
| AVL.SingleLeftAVL | TauUtilsDynamic/include/ds/AVLTree.hpp:366-368 | the right-right case: one left rotation rebalances |
| AVL.DoubleLeftAVL | TauUtilsDynamic/include/ds/AVLTree.hpp:377-382 | the right-left case: rotating the child right and the node left rebalances |
| AVL.InsertBalanceLeftAVL | TauUtilsDynamic/include/ds/AVLTree.hpp:331-383 | after the left subtree took the item the node is AVL again, at most one deeper |
| AVL.InsertBalanceRightAVL | TauUtilsDynamic/include/ds/AVLTree.hpp:333-383 | after the right subtree took the item the node is AVL again, at most one deeper |
| AVL.InsertAVL | TauUtilsDynamic/include/ds/AVLTree.hpp:326-385 | with new nodes of height 1, Insert keeps an AVL tree with exact heights AVL and exact, at most one deeper, never meeting a null child, under Ignore and Replace |
| AVL.AllocatedHeightLeavesChain | TauUtilsDynamic/include/ds/AVLTree.hpp:148-385 | with the source's new-node height 0, inserting 3, 2, 1 leaves a chain of balance 1 that is not AVL |
| AVL.LeafHeightFirstInsert | TauUtilsDynamic/include/ds/AVLTree.hpp:326-385 | with height 1, the first insert makes a leaf |
| AVL.LeafHeightSecondInsert | TauUtilsDynamic/include/ds/AVLTree.hpp:326-385 | with height 1, the second insert makes a node of height 2 |
| AVL.LeafHeightThirdInsert | TauUtilsDynamic/include/ds/AVLTree.hpp:362-364 | with height 1, the third insert rotates right to 2 over 1 and 3 |
| AVL.LeafHeightRotates | TauUtilsDynamic/include/ds/AVLTree.hpp:326-385 | the tree the three inserts end in is AVL with exact heights |
| AVL.AscendingIsNonDescending | TauUtilsDynamic/include/ds/AVLTree.hpp:326-385 | strictly increasing order is non-decreasing |
| AVL.AVLTree.constructor | TauUtilsDynamic/include/ds/AVLTree.hpp:43-63 | a new tree is empty and valid |
| AVL.AVLTree.Find | TauUtilsDynamic/include/ds/AVLTree.hpp:65-233 | Find gives the search function's result, and in a valid tree finds exactly the stored keys |
| AVL.AVLTree.Insert | TauUtilsDynamic/include/ds/AVLTree.hpp:144-189 | Insert places the item as a plain search-tree insertion does and keeps the tree valid; false where the source would follow a null child |
| AVL.AVLTree.Remove | TauUtilsDynamic/include/ds/AVLTree.hpp:191-470 | Remove gives the removal function's tree, never fails on a valid tree, and with one node per key deletes exactly that key's items |
| Base32.GetBase32Bits | TauUtilsDynamic/include/Base32.hpp:48-61 | the value of a character is below 32, or 0xFF |
| Base32.CharOfLargeValue | TauUtilsDynamic/include/Base32.hpp:38-46 | GetBase32Char gives '\\0' exactly for values of 32 and more |
| Base32.BitsOfChar | TauUtilsDynamic/include/Base32.hpp:38-61 | every value below 32 comes back from its character, which is in the alphabet |
| Base32.CharOfBits | TauUtilsDynamic/include/Base32.hpp:38-61 | every alphabet character comes back from its value |
| Base32.AlphabetIsCharMap | TauUtilsDynamic/include/Base32.hpp:23-61 | IsBase32Char accepts exactly the characters of CHAR_MAP, and GetBase32Bits rejects the rest |
| Base32.RequiredLengthWithoutPaddingIsCeiling | TauUtilsDynamic/include/Base32.hpp:63-67 | the unpadded length is ceil(8n / 5) for n of at least 1 |
| Base32.RequiredLengthOfNothing | TauUtilsDynamic/include/Base32.hpp:63-67 | for 0 bytes the subtraction wraps and the length is 0x3333333333333334 |
| Base32.RequiredLengthExamples | TauUtilsDynamic/include/Base32.hpp:63-67 | 1 to 5 bytes take 2, 4, 5, 7 and 8 characters |
| Base32.NumBytesIsFloor | TauUtilsDynamic/include/Base32.hpp:82-86 | NumBytesWithoutPadding(L) is floor(5L / 8) |
| Base32.AlignToEight | TauUtilsDynamic/include/Base32.hpp:71-79 | aligning to 8 rounds up to the next multiple of 8 |
| Base32.GroupChars | TauUtilsDynamic/include/Base32.hpp:263-285 | a group's eight 5-bit values give eight characters |
| Base32.Group | TauUtilsDynamic/include/Base32.hpp:168-285 | a group of n bytes takes ceil(8n / 5) characters |
| Base32.Padding | TauUtilsDynamic/include/Base32.hpp:179-262 | n copies of '=' |
| Base32.PadsFor | TauUtilsDynamic/include/Base32.hpp:168-297 | at most seven '=' follow the final group |
| Base32.EncodeIsDataThenPadding | TauUtilsDynamic/include/Base32.hpp:163-297 | every encoding is its unpadded encoding, ceil(8n / 5) long, then the padding |
| Base32.GroupStep | TauUtilsDynamic/include/Base32.hpp:163-297 | five bytes more take eight characters more and keep the padding |
| Base32.EncodeLength | TauUtilsDynamic/include/Base32.hpp:163-297 | an encoding is ceil(8n / 5) characters and then its padding |
| Base32.PaddingArithmetic | TauUtilsDynamic/include/Base32.hpp:179-297 | the padding completes the length to a multiple of 8, or adds the trailer of seven |
| Base32.RequiredLengthOfCount | TauUtilsDynamic/include/Base32.hpp:110-154 | the corrected required length is ceil(8n / 5) plus the padding written |
| Base32.RequiredLengthIsEncodedLength | TauUtilsDynamic/include/Base32.hpp:110-154 | the corrected required length is exactly the encoding's length |
| Base32.PaddedLengthTooShort | TauUtilsDynamic/include/Base32.hpp:69-80 | as written one byte with padding requires 5 characters, yet 8 are written |
| Base32.EncodeExamples | TauUtilsDynamic/include/Base32.hpp:163-297 | the examples "f", "foob" and "fooba" of section 10 of RFC 4648 |
| Base32.EncodeTrailerExamples | TauUtilsDynamic/include/Base32.hpp:287-295 | a full last group with the trailer, and an unpadded stream of two groups |
| Base32.GroupCharsOf | TauUtilsDynamic/include/Base32.hpp:263-285 | the first characters of a group are read off its first 5-bit values |
| Base32.GroupOfBytes | TauUtilsDynamic/include/Base32.hpp:168-285 | a group is the cut of the characters of its bytes extended with zeros |
| Base32.GroupExampleF | TauUtilsDynamic/include/Base32.hpp:168-189 | the byte 0x66 gives "MY" |
| Base32.GroupExampleFoob | TauUtilsDynamic/include/Base32.hpp:236-262 | the bytes "foob" give "MZXW6YQ" |
| Base32.GroupExampleFooba | TauUtilsDynamic/include/Base32.hpp:263-285 | the bytes "fooba" give "MZXW6YTB" |
| Base32.GroupExampleR | TauUtilsDynamic/include/Base32.hpp:168-189 | the byte 0x72 gives "OI" |
| Base32.GroupKeepsBits | TauUtilsDynamic/include/Base32.hpp:263-285 | a group's 40 bits are those of its eight 5-bit values, most significant first |
| Base32.BytesOfQuintets | TauUtilsDynamic/include/Base32.hpp:263-285 | the bytes come back from their 5-bit values |
| Base32.ValueAt | TauUtilsDynamic/include/Base32.hpp:48-61 | a character of a chunk has a value below 32 |
| Base32.ZeroTail | TauUtilsDynamic/include/Base32.hpp:168-262 | the values past the characters a short group takes are zero |
| Base32.GroupRoundTrip | TauUtilsDynamic/include/Base32.hpp:168-285 | a group is in the alphabet and decodes back to its bytes |
| Base32.ExtendThenCut | TauUtilsDynamic/include/Base32.hpp:168-262 | cutting the zero-extended group back gives the group |
| Base32.DecodeDataOfEncoding | TauUtilsDynamic/include/Base32.hpp:163-297 | the unpadded encoding decodes back to the bytes |
| Base32.DecodeEncodeRoundTrip | TauUtilsDynamic/include/Base32.hpp:163-297 | an encoding is ceil(8n / 5) alphabet characters decoding back to the bytes, then only '=' |
| Base32.EncodeResultOfRoom | TauUtilsDynamic/include/Base32.hpp:88-300 | with room for the encoding the Transform writes exactly the encoding and reports its length |
| Base32.EncodeFromGroup | TauUtilsDynamic/include/Base32.hpp:163-297 | one turn of the loop writes the group at i, then the rest follows |
| Base32.EncodeTransform | TauUtilsDynamic/include/Base32.hpp:88-300 | the method returns the result function's code and length and writes exactly its text |
| Base32.EncodeGroups | TauUtilsDynamic/include/Base32.hpp:163-297 | the loop writes exactly the encoding and nothing past it |
| Base32.PutGroup | TauUtilsDynamic/include/Base32.hpp:165-296 | the body writes the group at i and its padding, and nothing past it |
| Base32.PutFinalGroup | TauUtilsDynamic/include/Base32.hpp:169-262 | a final group of one to four bytes is written with its padding |
| Base32.PutOneByteGroup | TauUtilsDynamic/include/Base32.hpp:172-189 | one byte: two characters, then six '=' when pad is set |
| Base32.PutTwoByteGroup | TauUtilsDynamic/include/Base32.hpp:190-211 | two bytes: four characters, then four '=' when pad is set |
| Base32.PutThreeByteGroup | TauUtilsDynamic/include/Base32.hpp:212-235 | three bytes: five characters, then three '=' when pad is set |
| Base32.PutFourByteGroup | TauUtilsDynamic/include/Base32.hpp:236-262 | four bytes: seven characters, then one '=' when pad is set |
| Base32.PutFullGroup | TauUtilsDynamic/include/Base32.hpp:263-295 | five bytes: eight characters, then seven '=' after the last group when trail is set |
| Base64.GetBase64Bits | TauUtilsDynamic/include/Base64.hpp:50-77 | the value of a character is below 64, or 0xFF |
| Base64.CharOfLargeValue | TauUtilsDynamic/include/Base64.hpp:40-48 | GetBase64Char gives '\0' exactly for values with a top bit set (64 and more) |
| Base64.BitsOfChar | TauUtilsDynamic/include/Base64.hpp:40-77 | every value below 64 maps to an alphabet character whose value is that value again |
| Base64.CharOfBits | TauUtilsDynamic/include/Base64.hpp:40-77 | every alphabet character comes back from its value, for any '+' and '/' alternatives |
| Base64.BitsRejectExactlyNonAlphabet | TauUtilsDynamic/include/Base64.hpp:15-77 | GetBase64Bits returns 0xFF if and only if IsBase64Char rejects the character |
| Base64.RequiredLengthWithoutPaddingIsCeiling | TauUtilsDynamic/include/Base64.hpp:79-83 | the unpadded length is ceil(4n/3) for every count that does not overflow |
| Base64.RequiredLengthOfNothing | TauUtilsDynamic/include/Base64.hpp:79-83 | for zero bytes the subtraction wraps and the length is 0x5555555555555556 |
| Base64.RequiredLengthExamples | TauUtilsDynamic/include/Base64.hpp:79-83 | 1, 4 and 6 bytes need 2, 6 and 8 characters |
| Base64.AlignToFour | TauUtilsDynamic/include/Base64.hpp:85-88 | AlignTo with alignment 4 rounds up to the next multiple of 4 |
| Base64.RequiredLengthWithPaddingRoundsUp | TauUtilsDynamic/include/Base64.hpp:85-88 | the padded length is the unpadded one rounded up to a multiple of 4 |
| Base64.RequiredLengthWithTrailer | TauUtilsDynamic/include/Base64.hpp:90-96 | the trailer length adds 3 to a multiple of 4 and otherwise rounds up to one |
| Base64.NumBytesIsFloor | TauUtilsDynamic/include/Base64.hpp:98-102 | NumBytesWithoutPadding(L) is floor(3L/4) |
| Base64.Chars | TauUtilsDynamic/include/Base64.hpp:40-48 | the characters of a list of sextets, one per sextet, in order |
| Base64.EncodeLength | TauUtilsDynamic/include/Base64.hpp:180-243 | the encoding of n bytes is ceil(4n/3) characters plus the padding or trailer written |
| Base64.EncodeLastLength | TauUtilsDynamic/include/Base64.hpp:186-224 | the same length law for the final group of one, two or three bytes |
| Base64.RequiredLengthIsEncodedLength | TauUtilsDynamic/include/Base64.hpp:127-243 | the length the Transform demands of the output buffer is exactly the length of the text it writes |
| Base64.RequiredLengthOfCount | TauUtilsDynamic/include/Base64.hpp:79-171 | the demanded length is ceil(4n/3) plus the padding the encoder writes |
| Base64.PaddingArithmetic | TauUtilsDynamic/include/Base64.hpp:85-239 | the '=' characters written bring ceil(4n/3) to a multiple of 4, or add the trailer |
| Base64.EncodeExamples | TauUtilsDynamic/include/Base64.hpp:180-243 | the RFC 4648 section 10 examples "Zg==", "Zm8=", "Zm9v", unpadded "Zm8", and "Zm9v===" with the trailer |
| Base64.PadCount | TauUtilsDynamic/include/Base64.hpp:258-277 | the counted padding is at most three trailing '=' and is maximal |
| Base64.FinalGroupAgrees | TauUtilsDynamic/include/Base64.hpp:327-400 | for a final group of two or three characters the code as written and the corrected order agree |
| Base64.FinalGroupReadsPastEnd | TauUtilsDynamic/include/Base64.hpp:327-368 | for "QUJDR" the code as written reads one character past the text, where -402 is meant |
| Base64.FinalGroupReadsPadding | TauUtilsDynamic/include/Base64.hpp:327-368 | for "QUJDR=" the code as written reads the '=' as a partner and returns -401 instead of -402 |
| Base64.AsWrittenNever402 | TauUtilsDynamic/include/Base64.hpp:327-368 | as written the -402 branch is dead; in the corrected order -402 is returned exactly for one leftover alphabet character |
| Base64.DecodeFromBound | TauUtilsDynamic/include/Base64.hpp:312-421 | the decoding loop writes at most three bytes per four characters |
| Base64.FullGroupRoundTrip | TauUtilsDynamic/include/Base64.hpp:225-416 | a full group of three bytes comes back from its four characters |
| Base64.TwoByteGroupRoundTrip | TauUtilsDynamic/include/Base64.hpp:203-360 | a final group of two bytes comes back from its three characters |
| Base64.OneByteGroupRoundTrip | TauUtilsDynamic/include/Base64.hpp:189-360 | a final group of one byte comes back from its two characters |
| Base64.EncodeSplits | TauUtilsDynamic/include/Base64.hpp:180-243 | the encoding of more than three bytes is the first group followed by the encoding of the rest |
| Base64.PadCountOfEncoding | TauUtilsDynamic/include/Base64.hpp:196-277 | the decoder counts exactly the padding the encoder wrote |
| Base64.PadCountOfLast | TauUtilsDynamic/include/Base64.hpp:196-277 | the same for a stream of one to three bytes |
| Base64.PadCountOfSuffix | TauUtilsDynamic/include/Base64.hpp:258-277 | the padding count depends only on a long enough suffix |
| Base64.DecodeFromEncoding | TauUtilsDynamic/include/Base64.hpp:180-421 | the data part of every encoding decodes back to the bytes |
| Base64.DecodeLastGroup | TauUtilsDynamic/include/Base64.hpp:186-400 | the base case: an encoding of one to three bytes decodes back |
| Base64.DecodeLastThree | TauUtilsDynamic/include/Base64.hpp:225-421 | three bytes decode back whatever padding or trailer follows |
| Base64.DecodeLastTwo | TauUtilsDynamic/include/Base64.hpp:203-400 | two bytes decode back, with or without the '=' |
| Base64.DecodeLastOne | TauUtilsDynamic/include/Base64.hpp:189-360 | one byte decodes back, with or without the "==" |
| Base64.DecodeFromEncodingStep | TauUtilsDynamic/include/Base64.hpp:180-421 | if the rest decodes back, so does the stream with a full group in front |
| Base64.DecodeFullGroup | TauUtilsDynamic/include/Base64.hpp:402-421 | a full group decodes to its three bytes ahead of the rest |
| Base64.PadsForStep | TauUtilsDynamic/include/Base64.hpp:186-239 | a further full group in front does not change the padding written |
| Base64.DecodeGroupThenRest | TauUtilsDynamic/include/Base64.hpp:312-421 | four alphabet characters decode to three bytes ahead of the decoding of the rest |
| Base64.DecodeEncodeRoundTrip | TauUtilsDynamic/include/Base64.hpp:180-421 | the decoder finds the encoder's padding, demands exactly n bytes and returns the original bytes |
| Base64.DecodeText | TauUtilsDynamic/include/Base64.hpp:258-300 | any text with the encoding's length, padding and data decodes as the round trip needs |
| Base64.NumBytesOfEncodedLength | TauUtilsDynamic/include/Base64.hpp:79-293 | ceil(4n/3) data characters give a byte count of exactly n |
| Base64.StrictRoundTripNeedsPadding | TauUtilsDynamic/include/Base64.hpp:279-289 | with 3 dividing n, padding alone writes no '=', so the strict codec needs the trailer |
| Base64.EncodeResultOfRoom | TauUtilsDynamic/include/Base64.hpp:105-243 | with room for the required length the encoding Transform returns 0, reports the length and writes exactly the encoding |
| Base64.DecodeResultOfEncoding | TauUtilsDynamic/include/Base64.hpp:246-423 | decoding an encoding into a buffer of at least n bytes returns 0, reports n and writes the bytes |
| Base64.TransformRoundTrip | TauUtilsDynamic/include/Base64.hpp:105-423 | the two Transforms are inverse on every stream and every output buffer large enough, the strict codec when padding was written |
| Base64.EncodeFromGroup | TauUtilsDynamic/include/Base64.hpp:180-243 | one turn of the encoding loop writes its group ahead of the rest |
| Base64.EncodeTransform | TauUtilsDynamic/include/Base64.hpp:105-243 | the encoding Transform's return code, writeLength and written text are those of the specification, checks in the source's order, nothing after the text touched |
| Base64.EncodeGroups | TauUtilsDynamic/include/Base64.hpp:178-243 | the encoding loop writes exactly the encoding and nothing after it |
| Base64.PutGroup | TauUtilsDynamic/include/Base64.hpp:182-242 | the loop body writes the group at byte i with its padding or trailer |
| Base64.PutOneByteGroup | TauUtilsDynamic/include/Base64.hpp:189-200 | two characters, then "==" when padding |
| Base64.PutTwoByteGroup | TauUtilsDynamic/include/Base64.hpp:203-220 | three characters, then '=' when padding |
| Base64.PutFullGroup | TauUtilsDynamic/include/Base64.hpp:222-240 | four characters, then "===" after the last group when trailing |
| Base64.DecodeRestGroup | TauUtilsDynamic/include/Base64.hpp:312-421 | a failing group ends the decoding with its code; a good one writes its bytes ahead of the rest |
| Base64.CountPadding | TauUtilsDynamic/include/Base64.hpp:256-277 | the counted padding is PadCount of the text |
| Base64.DecodeTransform | TauUtilsDynamic/include/Base64.hpp:246-423 | the decoding Transform's return code, writeLength and written bytes are those of the specification, with the final group in the corrected order |
| Base64.DecodeFitsRequired | TauUtilsDynamic/include/Base64.hpp:291-421 | NumBytesWithoutPadding leaves room for every byte the loop writes |
| Base64.DecodeGroups | TauUtilsDynamic/include/Base64.hpp:308-421 | the decoding loop writes exactly the decoded bytes up to the first error and returns its code |
| Base64.TakeGroup | TauUtilsDynamic/include/Base64.hpp:314-420 | the loop body checks the group at character i and writes its bytes |
| Dragon4.NormalizedRange | TauUtilsDynamic/src/Dragon4.cpp:36-131 | a normalized block sequence (no zero top block) stands for a number in [BlockBase^(n-1), BlockBase^n), and for 0 exactly when empty |
| Dragon4.NormalizedLower | TauUtilsDynamic/src/Dragon4.cpp:101-131 | the top block is non-zero if and only if the value reaches BlockBase^(n-1) |
| Dragon4.ValueBound | TauUtilsDynamic/src/Dragon4.cpp:36-38 | n blocks stand for less than BlockBase^n |
| Dragon4.ValueSplit | TauUtilsDynamic/src/Dragon4.cpp:36-38 | the value is the low k blocks plus BlockBase^k times the rest |
| Dragon4.CompareAt | TauUtilsDynamic/src/Dragon4.cpp:141-151 | of two equal-length block sequences agreeing above i, the one with the larger block at i is larger |
| Dragon4.ScanResult | TauUtilsDynamic/src/Dragon4.cpp:141-153 | the top-down scan's stopping point decides the comparison: equal when nothing differs, else as the first differing block |
| Dragon4.LongerIsLarger | TauUtilsDynamic/src/Dragon4.cpp:135-139 | of two normalized BigInts the longer is the larger |
| Dragon4.BlockPowerIsPow2 | TauUtilsDynamic/src/Dragon4.cpp:471-553 | BlockBase^k is 2^(32k) |
| Dragon4.BigInt.Blocks | TauUtilsDynamic/src/Dragon4.cpp:36-94 | the blocks in use are m_Length blocks |
| Dragon4.BigInt.constructor | TauUtilsDynamic/src/Dragon4.cpp:40-43 | a new BigInt has length 0 and value 0 |
| Dragon4.BigInt.Copy | TauUtilsDynamic/src/Dragon4.cpp:45-63 | the copy and move constructors give a fresh BigInt with the same blocks in use |
| Dragon4.BigInt.Assign | TauUtilsDynamic/src/Dragon4.cpp:65-92 | assignment copies the blocks in use and keeps the blocks above them; self-assignment changes nothing |
| Dragon4.BigInt.Length64 | TauUtilsDynamic/src/Dragon4.cpp:95 | the 64-bit word count is the block count halved, rounded up |
| Dragon4.GetU32IsLowBlock | TauUtilsDynamic/src/Dragon4.cpp:99 | GetU32 is the value modulo 2^32 |
| Dragon4.IsZeroMeansZero | TauUtilsDynamic/src/Dragon4.cpp:98 | on a normalized BigInt IsZero holds exactly when the value is 0 |
| Dragon4.BigInt.SetZero | TauUtilsDynamic/src/Dragon4.cpp:97 | the value becomes 0, with length 0 |
| Dragon4.BigInt.SetU32 | TauUtilsDynamic/src/Dragon4.cpp:101-112 | the value becomes val, normalized: length 0 for zero, else 1 |
| Dragon4.BigInt.SetU64 | TauUtilsDynamic/src/Dragon4.cpp:114-131 | the value becomes val, normalized: length 0, 1 or 2 as val needs |
| Dragon4.BigInt.CompareTo | TauUtilsDynamic/src/Dragon4.cpp:133-154 | a shorter BigInt compares smaller; on equal lengths or normalized operands the result is the sign of left - right |
| Dragon4.BigInt.CompareBlocks | TauUtilsDynamic/src/Dragon4.cpp:141-153 | the block scan returns the sign of the difference of the values |
| Dragon4.BigInt.FirstDifference | TauUtilsDynamic/src/Dragon4.cpp:141-151 | the scan stops at the highest differing block, or at -1 when all agree |
| Dragon4.BigInt.Add | TauUtilsDynamic/src/Dragon4.cpp:156-225 | value(result) = value(left) + value(right), normalized when both operands are |
| Dragon4.BigInt.AddLow | TauUtilsDynamic/src/Dragon4.cpp:200-207 | the first loop sums the blocks both operands have and returns a carry of at most 1 |
| Dragon4.BigInt.AddHigh | TauUtilsDynamic/src/Dragon4.cpp:209-214 | the second loop ripples the carry through the longer operand's blocks |
| Dragon4.BigInt.Scale | TauUtilsDynamic/src/Dragon4.cpp:337-401 | the multiplying loop writes src times m with a carry below BlockBase, nothing else changed |
| Dragon4.BigInt.MulU32 | TauUtilsDynamic/src/Dragon4.cpp:334-353 | value(result) = value(left) * right, normalized when left is and right is not 0 |
| Dragon4.BigInt.Mul10 | TauUtilsDynamic/src/Dragon4.cpp:393-408 | the value is multiplied by 10 in place, staying normalized |
| Dragon4.BigInt.Mul2 | TauUtilsDynamic/src/Dragon4.cpp:355-374 | corrected: value(result) = value(left) * 2, normalized when left is |
| Dragon4.BigInt.Mul2Self | TauUtilsDynamic/src/Dragon4.cpp:376-391 | corrected: the value is doubled in place, staying normalized |
| Dragon4.Mul2AsWritten | TauUtilsDynamic/src/Dragon4.cpp:355-391 | as written each turn carries product >> 31; the result has n or n + 1 blocks |
| Dragon4.Mul2AsWrittenOvershoots | TauUtilsDynamic/src/Dragon4.cpp:355-391 | as written 2^30 doubles to 2^32 + 2^31 instead of 2^31 |
| Dragon4.BigInt.Pow2 | TauUtilsDynamic/src/Dragon4.cpp:471-483 | the value becomes 2^exponent, normalized, in exponent / 32 + 1 blocks |
| Dragon4.OneBitValue | TauUtilsDynamic/src/Dragon4.cpp:471-483 | zero blocks under one block holding 1 << bit stand for 2^(32k + bit) |
| Dragon4.BigInt.ShiftLeft | TauUtilsDynamic/src/Dragon4.cpp:547-601 | corrected: the value is multiplied by 2^shift in place, staying normalized |
| Dragon4.BigInt.ShiftBlocks | TauUtilsDynamic/src/Dragon4.cpp:554-594 | whole-block shift: count zero blocks below the old blocks, value times BlockBase^count |
| Dragon4.BigInt.MoveUp | TauUtilsDynamic/src/Dragon4.cpp:556-559 | the blocks move up by count, top block first, the rest unchanged |
| Dragon4.BigInt.ZeroBelow | TauUtilsDynamic/src/Dragon4.cpp:561-594 | the count blocks at the bottom become zero, the rest unchanged |
| Dragon4.ShiftedValue | TauUtilsDynamic/src/Dragon4.cpp:554-567 | zero blocks under s multiply its value by BlockBase^count |
| Dragon4.ShiftTotal | TauUtilsDynamic/src/Dragon4.cpp:549-553 | shifting by shift % 32 bits and shift / 32 blocks is shifting by shift bits |
| Dragon4.ShiftDownAsWritten | TauUtilsDynamic/src/Dragon4.cpp:568-589 | as written the bit loop writes in + 2 blocks |
| Dragon4.ShiftLeftAsWrittenLosesBits | TauUtilsDynamic/src/Dragon4.cpp:568-600 | as written 2^31 shifted left by one gives 0, not 2^32 |
| Dragon4.BigInt.Mul | TauUtilsDynamic/src/Dragon4.cpp:228-276 | corrected: value(result) = value(left) * value(right), normalized for normalized non-zero operands |
| Dragon4.BigInt.MulBlocks | TauUtilsDynamic/src/Dragon4.cpp:245-268 | zeroing and the row loop write large * small into as many blocks as the two operands have together |
| Dragon4.BigInt.MulRow | TauUtilsDynamic/src/Dragon4.cpp:250-267 | one row of the loop adds big times block i of little at block i |
| Dragon4.BigInt.MulAddRow | TauUtilsDynamic/src/Dragon4.cpp:257-265 | the inner loop adds src times m into dst at block off with a carry below BlockBase, nothing else changed |
| Dragon4.StartProduct | TauUtilsDynamic/src/Dragon4.cpp:245-248 | zeroed blocks start the product at 0 |
| Dragon4.TrimmedProduct | TauUtilsDynamic/src/Dragon4.cpp:269-276 | dropping a zero top block keeps the product and leaves it normalized for normalized non-zero operands |
| Dragon4.ProductNormalized | TauUtilsDynamic/src/Dragon4.cpp:269-276 | the product of normalized non-zero operands, written in one block fewer than the operands have together, has a non-zero top block, so it never needs fewer blocks |
| Dragon4.RowsAsWritten | TauUtilsDynamic/src/Dragon4.cpp:250-267 | as written the rows keep the accumulator's length |
| Dragon4.MulAsWrittenDropsRows | TauUtilsDynamic/src/Dragon4.cpp:228-276 | as written (2^32)^2 comes out as 2^32, not 2^64 |
| Dragon4.EstimateQuotient | TauUtilsDynamic/src/Dragon4.cpp:485-545 | with divisor top block at least 8 and a true quotient of at most 9, dividend top / (divisor top + 1) divisors fit and two more do not |
| Dragon4.BigInt.DivWithRem | TauUtilsDynamic/src/Dragon4.cpp:485-545 | under the stated preconditions the quotient is floor(dividend / divisor) and the remainder is left in dividend, normalized |
| Dragon4.BigInt.SubtractEstimate | TauUtilsDynamic/src/Dragon4.cpp:491-517 | the estimate is below 10, that many divisors are subtracted and less than two remain |
| Dragon4.BigInt.SubtractTimes | TauUtilsDynamic/src/Dragon4.cpp:493-541 | q divisors are subtracted and the length trimmed |
| Dragon4.BigInt.MulSubtract | TauUtilsDynamic/src/Dragon4.cpp:499-533 | the loop subtracts src times q with carry and borrow, nothing else changed |
| Dragon4.BigInt.TrimZeros | TauUtilsDynamic/src/Dragon4.cpp:511-539 | leading zero blocks are removed: normalized, same value |
| Dragon4.BigInt.FinishCarry | TauUtilsDynamic/src/Dragon4.cpp:216-407 | a carry left over becomes a new top block |
| ToString.DigitValue | TauUtils/include/ToString.hpp:48-96 | the value of a digit character in either case is below 16 |
| ToString.GetNumberUpper | TauUtils/include/ToString.hpp:48-71 | 0 to 15 map to an upper-case digit of that value, anything else to '?' |
| ToString.GetNumberLower | TauUtils/include/ToString.hpp:73-96 | 0 to 15 map to a lower-case digit of that value, anything else to '?' |
| ToString.UpperAndLower | TauUtils/include/ToString.hpp:48-96 | the two tables agree on decimal digits and differ only in the case of the letters |
| ToString.Reverse | TauUtils/include/ToString.hpp:9-20 | the reference reversal: element i is element n - 1 - i |
| ToString.ReverseReverse | TauUtils/include/ToString.hpp:9-20 | reversing twice gives the sequence back |
| ToString.ReverseAppend | TauUtils/include/ToString.hpp:272-281 | the reversal of a concatenation is the reversed parts swapped |
| ToString.ReverseBuffer | TauUtils/include/ToString.hpp:9-20 | the n elements from the start are reversed in place and nothing else changes |
| ToString.LowFirst | TauUtils/include/ToString.hpp:259-270 | the digit loop produces at least one digit for a positive number |
| ToString.LowFirstValue | TauUtils/include/ToString.hpp:259-270 | the digits the loop produces, read least significant first, give the number back |
| ToString.NumeralRoundTrip | TauUtils/include/ToString.hpp:259-281 | the numeral, read most significant first, gives the number back |
| ToString.NumeralDigits | TauUtils/include/ToString.hpp:259-468 | every character of a numeral is a digit of the base, in the chosen case |
| ToString.NumeralLeadingDigit | TauUtils/include/ToString.hpp:259-281 | the numeral of a positive number has no leading '0' |
| ToString.DigitCountAtMost | TauUtils/include/ToString.hpp:98-270 | a number below base^k has at most k digits |
| ToString.DigitCountAbove | TauUtils/include/ToString.hpp:98-270 | a number at least base^k has more than k digits |
| ToString.DecimalText | TauUtils/include/ToString.hpp:146-290 | the text ItoA writes is never empty |
| ToString.DecimalLength | TauUtils/include/ToString.hpp:246-289 | the text of a nonzero v is '-' for a negative v followed by the digits of its magnitude; the returned length counts both |
| ToString.DecimalRoundTrip | TauUtils/include/ToString.hpp:146-290 | reading the decimal text back gives v, for every integer |
| ToString.MagnitudeDigits | TauUtils/include/ToString.hpp:98-144 | the magnitude of each type's extreme has exactly as many digits as its count allows |
| ToString.MaxCharCountBounds | TauUtils/include/ToString.hpp:98-144 | MaxCharCount of a type bounds the text of every value of the type |
| ToString.MaxCharCountReached | TauUtils/include/ToString.hpp:98-144 | the text of the signed minimum, or of the unsigned maximum, has exactly MaxCharCount characters |
| ToString.MinimumLengthAsWrittenMissesI64 | TauUtils/include/ToString.hpp:166-244 | as written the i8, i16 and i32 minimum branches return their text's length; the i64 minimum returns -1 where 20 is meant |
| ToString.ItoAMinimumAsWritten | TauUtils/include/ToString.hpp:146-290 | ItoA as written and corrected differ exactly on the i64 minimum, -1 against 20 |
| ToString.ItoAPMinimumAsWritten | TauUtils/include/ToString.hpp:528-660 | ItoAP as written returns MaxCharCount except -1 for the i64 minimum in a buffer that fits it |
| ToString.WriteDigits | TauUtils/include/ToString.hpp:259-270 | the loop writes the digits least significant first, each only below bufferSize, and returns the index past them |
| ToString.WriteDigit | TauUtils/include/ToString.hpp:261-269 | one turn writes the least significant digit where it fits and returns the rest of the number |
| ToString.DropDigit | TauUtils/include/ToString.hpp:259-263 | the next digit is val % base, the rest are those of val / base |
| ToString.WriteTerminated | TauUtils/include/ToString.hpp:151-239 | the spelled-out branches write the text and a NUL from index 0 |
| ToString.Terminate | TauUtils/include/ToString.hpp:272-287 | when the text fits, its digits are reversed in place and a NUL follows; otherwise index 0 gets a NUL |
| ToString.WriteNumeral | TauUtils/include/ToString.hpp:246-289 | the sign, the digits and the NUL make the signed numeral when they fit; otherwise an empty text |
| ToString.WriteSign | TauUtils/include/ToString.hpp:246-255 | '-' goes to index 0 only where bufferSize exceeds 1, the digits start after it |
| ToString.NumeralInPlace | TauUtils/include/ToString.hpp:272-285 | the sign, the reversed digits and the NUL in place are the signed numeral and its NUL |
| ToString.WriteMinimum | TauUtils/include/ToString.hpp:166-239 | the spelled-out minimum is written with its NUL only when both fit, and its length returned either way |
| ToString.ItoA | TauUtils/include/ToString.hpp:146-290 | returns the text's length (2 for zero); writes the text and NUL when they fit, otherwise a NUL at index 0 or (zero, minimum) nothing |
| ToString.AsUnsigned | TauUtils/include/ToString.hpp:438-455 | XtoA prints the value's bits as an unsigned number of the same width |
| ToString.AsUnsignedRoundTrip | TauUtils/include/ToString.hpp:438-455 | reading those bits back as the type gives the value: no two values print alike |
| ToString.HexWidthPower | TauUtils/include/ToString.hpp:438-481 | two hex digits per byte span exactly the type's range |
| ToString.HexTextReadsBack | TauUtils/include/ToString.hpp:438-481 | the hexadecimal text reads back as the unsigned value and has one to two digits per byte |
| ToString.XtoA | TauUtils/include/ToString.hpp:438-481 | returns the text's length (2 for zero); writes the hex text in the chosen case and a NUL when they fit, otherwise a NUL at index 0 or (zero) nothing |
| ToString.Repeat | TauUtils/include/ToString.hpp:540-647 | k copies of the pad character |
| ToString.DecimalTextParts | TauUtils/include/ToString.hpp:246-255 | the decimal text is the sign followed by a magnitude text that has no '-' |
| ToString.ValueOfLeadingZeros | TauUtils/include/ToString.hpp:644-657 | leading '0' pads do not change the value read |
| ToString.PaddedTextLength | TauUtils/include/ToString.hpp:528-660 | the padded text has exactly MaxCharCount characters |
| ToString.ReadZeroPadded | TauUtils/include/ToString.hpp:644-657 | zeros between the sign and the digits do not change the reading |
| ToString.PaddedTextReadsBack | TauUtils/include/ToString.hpp:528-660 | padded with '0', ItoAP's text reads back as the value |
| ToString.Fill | TauUtils/include/ToString.hpp:540-647 | the pad loop writes the pad character over its range and nothing else |
| ToString.ReverseRepeat | TauUtils/include/ToString.hpp:649-656 | a run of pads is its own reversal |
| ToString.ReversePadded | TauUtils/include/ToString.hpp:634-656 | digits least significant first then pads read, reversed, as the pads then the numeral |
| ToString.WritePadded | TauUtils/include/ToString.hpp:624-659 | the sign, the pads and the numeral of the magnitude fill MaxCharCount characters, then the NUL |
| ToString.SignDigitsPadding | TauUtils/include/ToString.hpp:624-647 | the '-' then the digits least significant first, then pads up to MaxCharCount |
| ToString.PaddedZero | TauUtils/include/ToString.hpp:538-547 | zero pads to MaxCharCount - 1 pads and '0' |
| ToString.PaddedMinimum | TauUtils/include/ToString.hpp:554-623 | the minimum of a signed type fills MaxCharCount with nothing to pad |
| ToString.PaddedDigits | TauUtils/include/ToString.hpp:624-657 | the padded text of a nonzero value is the sign, the pads, then the digits of the magnitude |
| ToString.WritePaddedZero | TauUtils/include/ToString.hpp:538-547 | zero writes MaxCharCount - 1 pads, '0' and the NUL |
| ToString.ItoAP | TauUtils/include/ToString.hpp:528-660 | returns MaxCharCount; with room for it and the NUL writes the padded text and the NUL, otherwise nothing |
| ToString.ReadBool | TauUtils/include/ToString.hpp:942-968 | a reading back succeeds only on the text of that boolean |
| ToString.BoolTextRoundTrip | TauUtils/include/ToString.hpp:942-968 | a boolean's text reads back as that boolean, and only its own text does |
| ToString.BtoA | TauUtils/include/ToString.hpp:942-968 | returns 4 or 5; writes "true" or "false" without NUL only when it fits, otherwise nothing |
| TUMaths.MinT | TauUtilsDynamic/include/TUMaths.hpp:37-39 | the result is at most both arguments and is one of them |
| TUMaths.MinT3 | TauUtilsDynamic/include/TUMaths.hpp:41-43 | the result is at most all three arguments and is one of them |
| TUMaths.MinT4 | TauUtilsDynamic/include/TUMaths.hpp:45-47 | the result is at most all four arguments and is one of them |
| TUMaths.MaxT | TauUtilsDynamic/include/TUMaths.hpp:49-51 | the result is at least both arguments and is one of them |
| TUMaths.MaxT3 | TauUtilsDynamic/include/TUMaths.hpp:53-55 | the result is at least all three arguments and is one of them |
| TUMaths.MaxT4 | TauUtilsDynamic/include/TUMaths.hpp:57-59 | the result is at least all four arguments and is one of them |
| TUMaths.BitNot64 | TauUtilsDynamic/include/TUMaths.hpp:102-108 | ~x on 64 bits is 2^64 - 1 - x |
| TUMaths.HighMask | TauUtilsDynamic/include/TUMaths.hpp:102-108 | ~(2^k - 1) restricted to n bits is 2^n - 2^k |
| TUMaths.BitAndHighMask | TauUtilsDynamic/include/TUMaths.hpp:102-108 | masking with the high bits from k clears exactly x mod 2^k |
| TUMaths.NotLowMask | TauUtilsDynamic/include/TUMaths.hpp:102-108 | ~(2^k - 1) on 64 bits is the mask of bits k to 63 |
| TUMaths.AlignToMisaligned | TauUtilsDynamic/include/TUMaths.hpp:102-108 | a misaligned value is rounded up by the distance to the next multiple |
| TUMaths.AlignToMisalignedMask | TauUtilsDynamic/include/TUMaths.hpp:102-108 | the misaligned branch masks the sum with the high bits |
| TUMaths.AlignToBranch | TauUtilsDynamic/include/TUMaths.hpp:102-108 | the misaligned branch is (val + a) mod 2^64 masked with ~(a - 1) |
| TUMaths.MaskedSum | TauUtilsDynamic/include/TUMaths.hpp:102-108 | clearing the low k bits of val + 2^k leaves val + 2^k - val mod 2^k |
| TUMaths.AlignToPow2 | TauUtilsDynamic/include/TUMaths.hpp:102-142 | for a power-of-two alignment without wrap, AlignTo gives a multiple of a in [val, val + a) |
| TUMaths.AlignToIsLeast | TauUtilsDynamic/include/TUMaths.hpp:102-142 | and it is the least multiple of a at or above val |
| TUMaths.AlignToAnyIsLeast | TauUtilsDynamic/include/Base32.hpp:71-79 | AlignToAny, as Base32Codec and RingAllocator call it, gives the least multiple of the alignment at or above the value |
| TUMaths.DeBruijnTable8 | TauUtilsDynamic/include/TUMaths.hpp:149-151 | every entry of the 8-entry table is below 8 |
| TUMaths.DeBruijnLookup8 | TauUtilsDynamic/include/TUMaths.hpp:149-241 | the lookup of a 8-bit word by the De Bruijn constant gives an index below 8 |
| TUMaths.CountTrailingZeroC8 | TauUtilsDynamic/include/TUMaths.hpp:237-241 | the count is below 8 |
| TUMaths.CountLeadingZeroC8 | TauUtilsDynamic/include/TUMaths.hpp:261-267 | the count is below 8 |
| TUMaths.Log2i8 | TauUtilsDynamic/include/TUMaths.hpp:364-365 | the result is below 8 |
| TUMaths.DeBruijnLookup8Inverts | TauUtilsDynamic/include/TUMaths.hpp:149-241 | the table inverts the De Bruijn hash of every power of two below 2^8 |
| TUMaths.LowBit8Isolates | TauUtilsDynamic/include/TUMaths.hpp:237-241 | v ^ (v - 1) with its top half subtracted is the lowest set bit alone |
| TUMaths.Smear8Top | TauUtilsDynamic/include/TUMaths.hpp:261-267 | smearing v right leaves exactly the bits at and below its highest set bit |
| TUMaths.LowestSetBit8Exists | TauUtilsDynamic/include/TUMaths.hpp:237-241 | every non-zero word has a lowest set bit |
| TUMaths.HighestSetBit8Exists | TauUtilsDynamic/include/TUMaths.hpp:261-267 | every non-zero word has a highest set bit |
| TUMaths.CountTrailingZeroC8Correct | TauUtilsDynamic/include/TUMaths.hpp:237-241 | for v != 0 the result is the index of the lowest set bit |
| TUMaths.CountLeadingZeroC8Correct | TauUtilsDynamic/include/TUMaths.hpp:261-267 | for v != 0 the result is the number of clear bits above the highest set bit |
| TUMaths.Log2i8Correct | TauUtilsDynamic/include/TUMaths.hpp:261-365 | for v != 0, 2^r <= v < 2^(r+1): floor(log2 v) |
| TUMaths.CountZeroC8OfZero | TauUtilsDynamic/include/TUMaths.hpp:237-267 | for zero both counts return 7 |
| TUMaths.DeBruijnTable16 | TauUtilsDynamic/include/TUMaths.hpp:153-156 | every entry of the 16-entry table is below 16 |
| TUMaths.DeBruijnLookup16 | TauUtilsDynamic/include/TUMaths.hpp:153-247 | the lookup of a 16-bit word by the De Bruijn constant gives an index below 16 |
| TUMaths.CountTrailingZeroC16 | TauUtilsDynamic/include/TUMaths.hpp:243-247 | the count is below 16 |
| TUMaths.CountLeadingZeroC16 | TauUtilsDynamic/include/TUMaths.hpp:269-276 | the count is below 16 |
| TUMaths.Log2i16 | TauUtilsDynamic/include/TUMaths.hpp:367-368 | the result is below 16 |
| TUMaths.DeBruijnLookup16Inverts | TauUtilsDynamic/include/TUMaths.hpp:153-247 | the table inverts the De Bruijn hash of every power of two below 2^16 |
| TUMaths.LowBit16Isolates | TauUtilsDynamic/include/TUMaths.hpp:243-247 | v ^ (v - 1) with its top half subtracted is the lowest set bit alone |
| TUMaths.Smear16Top | TauUtilsDynamic/include/TUMaths.hpp:269-276 | smearing v right leaves exactly the bits at and below its highest set bit |
| TUMaths.LowestSetBit16Exists | TauUtilsDynamic/include/TUMaths.hpp:243-247 | every non-zero word has a lowest set bit |
| TUMaths.HighestSetBit16Exists | TauUtilsDynamic/include/TUMaths.hpp:269-276 | every non-zero word has a highest set bit |
| TUMaths.CountTrailingZeroC16Correct | TauUtilsDynamic/include/TUMaths.hpp:243-247 | for v != 0 the result is the index of the lowest set bit |
| TUMaths.CountLeadingZeroC16Correct | TauUtilsDynamic/include/TUMaths.hpp:269-276 | for v != 0 the result is the number of clear bits above the highest set bit |
| TUMaths.Log2i16Correct | TauUtilsDynamic/include/TUMaths.hpp:269-368 | for v != 0, 2^r <= v < 2^(r+1): floor(log2 v) |
| TUMaths.CountZeroC16OfZero | TauUtilsDynamic/include/TUMaths.hpp:243-276 | for zero both counts return 15 |
| TUMaths.DeBruijnTable32 | TauUtilsDynamic/include/TUMaths.hpp:158-163 | every entry of the 32-entry table is below 32 |
| TUMaths.DeBruijnLookup32 | TauUtilsDynamic/include/TUMaths.hpp:158-253 | the lookup of a 32-bit word by the De Bruijn constant gives an index below 32 |
| TUMaths.CountTrailingZeroC32 | TauUtilsDynamic/include/TUMaths.hpp:249-253 | the count is below 32 |
| TUMaths.CountLeadingZeroC32 | TauUtilsDynamic/include/TUMaths.hpp:278-286 | the count is below 32 |
| TUMaths.Log2i32 | TauUtilsDynamic/include/TUMaths.hpp:370-371 | the result is below 32 |
| TUMaths.DeBruijnLookup32Inverts | TauUtilsDynamic/include/TUMaths.hpp:158-253 | the table inverts the De Bruijn hash of every power of two below 2^32 |
| TUMaths.LowBit32Isolates | TauUtilsDynamic/include/TUMaths.hpp:249-253 | v ^ (v - 1) with its top half subtracted is the lowest set bit alone |
| TUMaths.Smear32Top | TauUtilsDynamic/include/TUMaths.hpp:278-286 | smearing v right leaves exactly the bits at and below its highest set bit |
| TUMaths.LowestSetBit32Exists | TauUtilsDynamic/include/TUMaths.hpp:249-253 | every non-zero word has a lowest set bit |
| TUMaths.HighestSetBit32Exists | TauUtilsDynamic/include/TUMaths.hpp:278-286 | every non-zero word has a highest set bit |
| TUMaths.CountTrailingZeroC32Correct | TauUtilsDynamic/include/TUMaths.hpp:249-253 | for v != 0 the result is the index of the lowest set bit |
| TUMaths.CountLeadingZeroC32Correct | TauUtilsDynamic/include/TUMaths.hpp:278-286 | for v != 0 the result is the number of clear bits above the highest set bit |
| TUMaths.Log2i32Correct | TauUtilsDynamic/include/TUMaths.hpp:278-371 | for v != 0, 2^r <= v < 2^(r+1): floor(log2 v) |
| TUMaths.CountZeroC32OfZero | TauUtilsDynamic/include/TUMaths.hpp:249-286 | for zero both counts return 31 |
| TUMaths.DeBruijnTable64 | TauUtilsDynamic/include/TUMaths.hpp:165-174 | every entry of the 64-entry table is below 64 |
| TUMaths.DeBruijnLookup64 | TauUtilsDynamic/include/TUMaths.hpp:165-259 | the lookup of a 64-bit word by the De Bruijn constant gives an index below 64 |
| TUMaths.CountTrailingZeroC64 | TauUtilsDynamic/include/TUMaths.hpp:255-259 | the count is below 64 |
| TUMaths.CountLeadingZeroC64 | TauUtilsDynamic/include/TUMaths.hpp:288-297 | the count is below 64 |
| TUMaths.Log2i64 | TauUtilsDynamic/include/TUMaths.hpp:373-374 | the result is below 64 |
| TUMaths.DeBruijnLookup64Inverts | TauUtilsDynamic/include/TUMaths.hpp:165-259 | the table inverts the De Bruijn hash of every power of two below 2^64 |
| TUMaths.LowBit64Isolates | TauUtilsDynamic/include/TUMaths.hpp:255-259 | v ^ (v - 1) with its top half subtracted is the lowest set bit alone |
| TUMaths.Smear64Top | TauUtilsDynamic/include/TUMaths.hpp:288-297 | smearing v right leaves exactly the bits at and below its highest set bit |
| TUMaths.LowestSetBit64Exists | TauUtilsDynamic/include/TUMaths.hpp:255-259 | every non-zero word has a lowest set bit |
| TUMaths.HighestSetBit64Exists | TauUtilsDynamic/include/TUMaths.hpp:288-297 | every non-zero word has a highest set bit |
| TUMaths.CountTrailingZeroC64Correct | TauUtilsDynamic/include/TUMaths.hpp:255-259 | for v != 0 the result is the index of the lowest set bit |
| TUMaths.CountLeadingZeroC64Correct | TauUtilsDynamic/include/TUMaths.hpp:288-297 | for v != 0 the result is the number of clear bits above the highest set bit |
| TUMaths.Log2i64Correct | TauUtilsDynamic/include/TUMaths.hpp:288-374 | for v != 0, 2^r <= v < 2^(r+1): floor(log2 v) |
| TUMaths.CountZeroC64OfZero | TauUtilsDynamic/include/TUMaths.hpp:255-297 | for zero both counts return 63 |
| TUMaths.NextPowerOf2U32Correct | TauUtilsDynamic/include/TUMaths.hpp:350-355 | for 1 <= v <= 2^31 the result is the least power of two at or above v |
| TUMaths.NextPowerOf2U64Correct | TauUtilsDynamic/include/TUMaths.hpp:357-362 | for 1 <= v <= 2^63 the result is the least power of two at or above v |
| TUMaths.NextPowerOf2U8AsWrittenUndefined | TauUtilsDynamic/include/TUMaths.hpp:336-341 | as written every v from 2 to 255 takes the 32-bit count, so 8u - clz wraps and the shift is undefined |
| TUMaths.NextPowerOf2U16AsWrittenUndefined | TauUtilsDynamic/include/TUMaths.hpp:343-348 | as written every v from 2 to 2^15 shifts by 32 or more, which is undefined |
| TUMaths.NextPowerOf2U8Correct | TauUtilsDynamic/include/TUMaths.hpp:336-341 | corrected (8-bit count on the 8-bit v - 1): for 1 <= v <= 0x80 the least power of two at or above v |
| TUMaths.NextPowerOf2U16Correct | TauUtilsDynamic/include/TUMaths.hpp:343-348 | corrected: for 1 <= v <= 0x8000 the least power of two at or above v |

## Left out

- `uSys` is 64 bits throughout. The 32-bit build is not modelled.
- AVL.AVLTree.Insert returns whether a node was stored, where the source returns the address of the node. Under the Ignore policy that address dangles. Node identity is not modelled.
- AVL: the nodes are modelled as an immutable `Tree` datatype under a class holding the root. The rewiring of Left/Right links in place and any aliasing of nodes are not captured.
- AVL: the source allocates new nodes with height 0. AVL.AVLTree.Insert uses height 1, the corrected value (see "## Findings").
- AVL: these operations are not modelled:
  - FindClosestMatchAbove and FindClosestMatchBelow;
  - Remove(const Node*), which works on node identity;
  - the tree disposal and iteration helpers.
- HashTables.HashTable.Expand returns false where the source calls `std::exit` when no larger prime bucket count is left.
- HashTables.ProbeCycleMisses records that quadratic probing over a prime bucket count can miss free buckets while the load is under 3/4. It is an observation, not a finding. Any of several repairs would do and none is evidently the one intended: linear probing, a load bound of 1/2, or triangular probing over a power of two. So no corrected probe sequence is modelled.
- HashTables.SentinelNeverFound is likewise an observation: a key whose hash equals the tombstone value is stored but never found.
- ArrayLists.ArrayList.Valid requires the element size to be at most one page. Element types larger than a page, which the source accepts, are excluded. ArrayLists.GrowLargeElement shows that the page bookkeeping breaks for them.
- ArrayLists: iterators and the reference-counted copy of the control block are not modelled. Page commits are a set of page numbers, not OS calls.
- ArrayLists.ArrayList.Remove, RemoveFast, Clear and the constructor use the corrected bookkeeping (see "## Findings").
- Base64.EncodeTransform and Base64.DecodeTransform require the byte count to be below Base64.MaxByteCount (text length below Base64.MaxTextLength). This drops the `uSys` overflow of the length arithmetic for counts near 2^64.
- Base32.EncodeTransform requires the byte count to be below Base32.MaxByteCount, for the same reason.
- Base32.EncodeTransform aligns the padded length to 8 where the source aligns it to 5 (see "## Findings").
- TUMaths.AlignToAny: its definition is not among the modelled source files; the model takes it to round up to the next multiple of the alignment in 64 bits, as AlignTo does for powers of two, and Base32 and RingAllocators use it that way.
- Base32 decoding is not modelled. Its Transform calls GetBase64Bits, which the Base32 codec does not define, and it uses Base64 group arithmetic (TauUtilsDynamic/include/Base32.hpp:400-521).
- Base64.TakeGroup returns -402 for a lone character in the last group even when padding follows, where the source returns -401 (see "## Findings").
- PathText.IsAlpha and PathText.IsDigit test ASCII letters and digits only. The source calls `iswalpha`/`iswdigit`, whose answers depend on the C locale.
- PathPrefix.ValidatePathPrefix rejects a non-letter drive that the source lets through (see "## Findings").
- PathDevices.ContainsWin32Device finds the devices the source misses (see "## Findings"); it takes COM and LPT as devices only with a digit after them, as the comment at PathSanitizer.hpp:366 lists them.
- PathDots.CleanDotDirs rejects a '?' right after a `\.\` component where the source copies it unchecked (see "## Findings"); any other character there is copied as the source copies it, even a '.' that starts another "." component (DotAfterCurrentCopied).
- SanitizePath is not modelled: it calls the Win32 API GetFullPathNameW.
- ToString.IntType has no `long` and no `unsigned long`. On the 64-bit targets these have the widths of i64/u64 (or i32/u32), which are modelled.
- ToString.ItoA and ToString.ItoAP write the i64 minimum where the source returns -1 (see "## Findings").
- ToString.ItoA and ToString.XtoA require a buffer of at least one character. When the text does not fit, the source writes a NUL to index 0 without a guard (ToString.hpp:284-287 and 472-475), which for an empty buffer is a write out of bounds; that write is not modelled.
- ToString: these are not modelled:
  - XtoAP and BtoAP, the variants of XtoA and BtoA that take a buffer address and size;
  - the array-reference overloads, which forward to the modelled functions.
- Dragon4: only `BigInt` is modelled. These are left out:
  - Dragon4T and the floating-point formatting built on it;
  - the Pow10/MulPow10 power tables;
  - the variant of Mul taking operand addresses, which has the same indexing defect as Mul.
- Dragon4: the source's fixed block array is checked against 35 blocks (Dragon4.MaxBlocks) in each `requires`. Aliasing between operands is not modelled.
- Dragon4.BigInt.Mul, Mul2, Mul2Self and ShiftLeft compute the value the source evidently intends (see "## Findings").
- SemVerParser.ParseTokens requires a non-empty token list. The parser reads its first token and the last index (TauUtilsDynamic/include/semver/SemVerParser.hpp:50, 329, 333). The lexer never emits the end-of-input token: the push is commented out at TauUtilsDynamic/include/semver/SemVerLexer.hpp:299. So the source has the same demand and no lexer lemma can discharge it.
- SemVerLexer: the 23-token example from the parser tests is stated at token level (SemVerParser.ValidateParses). Lexing the 29-character test text character by character is beyond the proof budget.
- SemVerParser.Parser.Parse stops with an unexpected-token error where the source's loop spins forever (see "## Findings").
- BitSets: `operator[]` and its proxy bit reference are not modelled. At, Set, Unset and Flip are.
- ReferenceCounters: freeing the counter is a `freed` flag on the shared cell. The atomics-free counting is otherwise exact.
- RingAllocators: addresses are naturals, and the backing allocator's pool address is a constructor parameter.
- Encoding: ToUpper is the table as written and ToUpperCorrected is the corrected table (see "## Findings"). ToLower is the identity, as in the source.
- TUMaths.NextPowerOf2U8 and TUMaths.NextPowerOf2U16 are the corrected versions (see "## Findings").

## Findings

| source | as written | input that shows it | evidently intended | confidence | as-written member | corrected member |
|---|---|---|---|---|---|---|
| TauUtilsDynamic/include/Base64.hpp:327-368 | a last group with a single character reads the next character as its partner. With nothing after it, that read is past the text. With '=' after it, the '=' fails as a character and gives -401. The -402 branch can never be reached | "QUJDR" reads one past the end; "QUJDR=" returns -401 | a single leftover character is rejected with -402 before anything after it is read | not executed | Base64.FinalGroupAsWritten, Base64.FinalGroupReadsPastEnd, Base64.FinalGroupReadsPadding, Base64.AsWrittenNever402 | Base64.FinalGroup, Base64.TakeGroup |
| TauUtilsDynamic/include/Base32.hpp:69-80 | the padded lengths are aligned to 5 characters | one byte with padding: the required length is 5 and the buffer check accepts 5, but the encoder writes 8 characters | align to a whole 8-character group | not executed | Base32.RequiredLengthWithPaddingAsWritten, Base32.RequiredLengthAsWritten, Base32.PaddedLengthTooShort | Base32.RequiredLengthIsEncodedLength, Base32.EncodeTransform |
| TauUtilsDynamic/include/TUMaths.hpp:336-348 | `v - 1u` is promoted to 32 bits, so the 32-bit leading-zero count is used and the shift amount `8u - clz` (or `16u - clz`) wraps to a huge unsigned value | nextPowerOf2 of the u8 value 2 shifts 1u by 8 - 31, an undefined shift | count leading zeros at the operand's own width | not executed | TUMaths.NextPowerOf2U8AsWritten, TUMaths.NextPowerOf2U8AsWrittenUndefined, TUMaths.NextPowerOf2U16AsWritten, TUMaths.NextPowerOf2U16AsWrittenUndefined | TUMaths.NextPowerOf2U8, TUMaths.NextPowerOf2U8Correct, TUMaths.NextPowerOf2U16, TUMaths.NextPowerOf2U16Correct |
| TauUtilsDynamic/include/Encoding.hpp:64-83 | the range 0xE0-0xFE includes DIVISION SIGN 0xF7, and LONG S 0x17F maps to the small letter 0x73 | ToUpper(0xF7) is 0xD7; ToUpper(ToUpper(0x17F)) is 0x53, not 0x73 | 0xF7 is unchanged and 0x17F maps to 'S' 0x53, which makes upper-casing idempotent | not executed | Encoding.DivisionSignMapped, Encoding.LongSNotIdempotent | Encoding.ToUpperCorrected, Encoding.ToUpperCorrectedIdempotent |
| TauUtilsDynamic/include/semver/SemVerParser.hpp:50-112 | Parse's loop advances only on Char and Number tokens. A String or Error token leaves the index unchanged, so the loop never ends | "1.0 x" | stop with an unexpected-token error | not executed | SemVerParser.ParseLoopAsWritten, SemVerParser.AsWrittenLoopsForever, SemVerParser.AsWrittenHangsExample, SemVerParser.LexHangsExample | SemVerParser.ParseLoop, SemVerParser.Parser.Parse |
| TauUtils/include/ToString.hpp:164-244 | the minimum-value branch tests for i32 twice where the second test is meant for i64. The i64 minimum falls through to `return -1` and nothing is written (ItoAP likewise at 556-621) | ItoA of -9223372036854775808 as i64 | write "-9223372036854775808" like the other minimums | not executed | ToString.MinimumLengthAsWrittenMissesI64, ToString.ItoAMinimumAsWritten, ToString.ItoAPMinimumAsWritten | ToString.ItoA, ToString.ItoAP |
| TauUtilsDynamic/src/Dragon4.cpp:355-391 | Mul2's carry is `product >> 31`, which keeps the doubled block's top bit as well as the carry-out | doubling the one-block value 2^30 gives 2^32 + 2^31 | carry `product >> 32` | not executed | Dragon4.Mul2AsWritten, Dragon4.Mul2AsWrittenOvershoots | Dragon4.BigInt.Mul2, Dragon4.BigInt.Mul2Self |
| TauUtilsDynamic/src/Dragon4.cpp:568-600 | for a shift that is not a whole number of blocks, the bits that leave the top of the lowest block are never written to the block above it | shifting the one-block value 2^31 left by 1 gives 0 | 2^32, the value times 2^shift | not executed | Dragon4.ShiftLeftAsWritten, Dragon4.ShiftLeftAsWrittenLosesBits | Dragon4.BigInt.ShiftLeft |
| TauUtilsDynamic/src/Dragon4.cpp:228-276 | the product of two BigInts adds each row into `result[j]` where `result[i + j]` is meant | (2^32) × (2^32) gives 2^32 | the product 2^64 | not executed | Dragon4.MulAsWritten, Dragon4.MulAsWrittenDropsRows | Dragon4.BigInt.Mul |
| TauUtilsDynamic/include/ds/AVLTree.hpp:146-154 | a new node gets height 0, the height of a missing child, so a fresh leaf does not count in its parent's balance | inserting 3, 2, 1 leaves a chain of three | a new leaf has height 1 | not executed | AVL.AllocatedHeightLeavesChain | AVL.InsertAVL, AVL.AVLTree.Insert |
| TauUtilsDynamic/include/ArrayList.hpp:383-415 | remove and removeFast of the last element return before the data size is decremented and before pages are released | removing index 0 from a one-element list leaves the data size one element too large | every removal shrinks the data size | not executed | ArrayLists.ShrinkAsWritten, ArrayLists.ShrinkAsWrittenLast | ArrayLists.Shrink, ArrayLists.ShrinkSound, ArrayLists.ArrayList.Remove, ArrayLists.ArrayList.RemoveFast |
| TauUtilsDynamic/include/ArrayList.hpp:417-431 | clear decommits from `_ctrlBlock + PageSize()`, which is PageSize() control blocks and so page 64 for 4096-byte pages and 64-byte blocks. It also leaves committedPages unchanged | clear on a list of 66 committed pages releases page 64 while committedPages still counts 66 | release every page after the first and set committedPages to 1 | not executed | ArrayLists.ClearAsWritten, ArrayLists.ClearAsWrittenReleasesLivePage | ArrayLists.Cleared, ArrayLists.ClearSound, ArrayLists.ArrayList.Clear |
| TauUtilsDynamic/include/ArrayList.hpp:287-289 | the reservation counts only the elements, not the control block in front of them | 1023 elements of 8 bytes with 4096-byte pages reserve 2 pages, which hold 1016 elements | reserve room for the control block as well | not executed | ArrayLists.ReservedPagesAsWritten, ArrayLists.ReservationAsWrittenShort | ArrayLists.ReservedPages, ArrayLists.ReservationHolds, ArrayLists.ArrayList.constructor |
| TauUtilsDynamic/include/ArrayList.hpp:385 | the range guard `index + 1 > elementCount` wraps for index 2^64 - 1 and lets it through | removing index 2^64 - 1 from a non-empty list | reject every index from elementCount up | not executed | ArrayLists.OutOfRangeAsWritten, ArrayLists.GuardAsWrittenWraps | ArrayLists.GuardRejectsBeyond, ArrayLists.ArrayList.Remove |
| TauUtilsDynamic/include/PathSanitizer.hpp:204-213 | the non-letter-drive test blocks when `path[2]` is a letter. In a local-device path `path[2]` is always '.' or '?', so the test never blocks (likewise at 238-253) | `\\.\1:\` passes the default settings | block when the drive character `path[4]` is not a letter | not executed | PathPrefix.NonLetterDriveInertAsWritten, PathPrefix.DigitDriveAcceptedAsWritten | PathPrefix.Prefix, PathPrefix.NonLetterDriveRejected, PathPrefix.ValidatePathPrefix |
| TauUtilsDynamic/include/PathSanitizer.hpp:371-374 | the scan gives up when fewer than four characters remain, although a three-letter device needs only three | "NUL:" is not found | give up below index 2 | not executed | PathDevices.ShortEndMissedAsWritten | PathDevices.ContainsDevice, PathDevices.DeviceAtEndFound, PathDevices.ContainsWin32Device |
| TauUtilsDynamic/include/PathSanitizer.hpp:453-460 | a '$' with fewer than six characters before it ends the whole scan with false, instead of going on with the scan | "NUL.$" is not found | treat the '$' as no device there and go on scanning | not executed | PathDevices.ShortDollarMissedAsWritten | PathDevices.ContainsDevice, PathDevices.ContainsWin32Device |
| TauUtilsDynamic/include/PathSanitizer.hpp:376-547 | the digits of COM1-9 and LPT1-9 are skipped, but the switch on the letter before them has no case for COM or LPT | "C:\COM1" and "C:\LPT1" are not found | match COM and LPT followed by a digit, as the comment at line 366 lists | not executed | PathDevices.ComMissedAsWritten, PathDevices.LptMissedAsWritten | PathDevices.ContainsDevice, PathDevices.DeviceIff, PathDevices.BareComLptNotDevices, PathDevices.ContainsWin32Device |
| TauUtilsDynamic/include/PathSanitizer.hpp:596-606 | after a "\.\" component, the character that follows is copied without the reserved-character check | "a\.\?" is accepted as "a\?" | reject a '?' there as any other position does, and copy any other character as written | not executed | PathDots.CleanAsWritten, PathDots.QuestionMarkAfterDotPassesAsWritten | PathDots.Clean, PathDots.QuestionMarkRejected, PathDots.DotAfterCurrentCopied, PathDots.CleanDotDirs |
| TauUtilsDynamic/include/PathSanitizer.hpp:612-635 | a ".." with no component left before it moves the write index below 0 | "a\..\..\" | stop at the start of the path | not executed | PathDots.CleanAsWritten, PathDots.ParentOfNothingUnderflowsAsWritten | PathDots.Clean, PathDots.CleanDotDirs |
