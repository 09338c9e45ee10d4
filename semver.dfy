/*
 * SemVer (semver/SemVer.hpp): packed version numbers, the release types and
 * the SemVer value with its comparison operators.
 *
 * The fields are 32-bit unsigned; the packed form keeps an 8-bit major, an
 * 8-bit minor and a 16-bit patch. Shifts and masks are written as div and mod.
 */
module SemVer {

  import TUMaths
  import ToString

  type U8 = x: int | 0 <= x < 0x100
  type U16 = x: int | 0 <= x < 0x1_0000
  type U32 = x: int | 0 <= x < 0x1_0000_0000

  /** u32 addition, wrapping as the C++ arithmetic does. */
  function WrapAdd32(x: U32, y: U32): (r: U32)
    ensures x + y < 0x1_0000_0000 ==> r == x + y
    ensures x + y >= 0x1_0000_0000 ==> r == x + y - 0x1_0000_0000
  {
    (x + y) % 0x1_0000_0000
  }

  // ---------------------------------------------------------------- packed versions

  /** MakeVersion: major in bits 24..31, minor in bits 16..23, patch in bits 0..15. */
  function MakeVersion(majorVersion: U8, minorVersion: U8, patchVersion: U16): U32 {
    majorVersion * 0x100_0000 + minorVersion * 0x1_0000 + patchVersion
  }

  /** GetMajorVersion: bits 24..31. */
  function GetMajorVersion(version: U32): U8 {
    (version / 0x100_0000) % 0x100
  }

  /** GetMinorVersion: bits 16..23. */
  function GetMinorVersion(version: U32): U8 {
    (version / 0x1_0000) % 0x100
  }

  /** GetPatchVersion: bits 0..15. */
  function GetPatchVersion(version: U32): U16 {
    version % 0x1_0000
  }

  /** The three accessors take a packed version apart again. */
  lemma GetOfMakeVersion(majorVersion: U8, minorVersion: U8, patchVersion: U16)
    ensures GetMajorVersion(MakeVersion(majorVersion, minorVersion, patchVersion)) == majorVersion
    ensures GetMinorVersion(MakeVersion(majorVersion, minorVersion, patchVersion)) == minorVersion
    ensures GetPatchVersion(MakeVersion(majorVersion, minorVersion, patchVersion)) == patchVersion
  {
    var v := MakeVersion(majorVersion, minorVersion, patchVersion);
    var low := minorVersion * 0x1_0000 + patchVersion;
    TUMaths.DivModUnique(v, 0x100_0000, majorVersion, low);
    TUMaths.DivModUnique(majorVersion, 0x100, 0, majorVersion);
    var mid := majorVersion * 0x100 + minorVersion;
    TUMaths.DivModUnique(v, 0x1_0000, mid, patchVersion);
    TUMaths.DivModUnique(mid, 0x100, majorVersion, minorVersion);
  }

  /** ... and every 32-bit value is the packing of its three parts. */
  lemma MakeVersionOfGet(version: U32)
    ensures MakeVersion(GetMajorVersion(version), GetMinorVersion(version), GetPatchVersion(version)) == version
  {
    var hi := version / 0x1_0000;
    assert version == hi * 0x1_0000 + version % 0x1_0000;
    TUMaths.DivModUnique(hi, 0x100, hi / 0x100, hi % 0x100);
    TUMaths.DivModUnique(version, 0x100_0000, hi / 0x100, (hi % 0x100) * 0x1_0000 + version % 0x1_0000);
    TUMaths.DivModUnique(hi / 0x100, 0x100, 0, hi / 0x100);
  }

  // ---------------------------------------------------------------- release types

  /** EReleaseType; Release is another name for None. */
  datatype ReleaseType = None | ReleaseCandidate | Gamma | Beta | Alpha

  /** The enumerator's integer value: None 0, ReleaseCandidate 1, Gamma 2, Beta 3, Alpha 4. */
  function Ordinal(r: ReleaseType): nat {
    match r
    case None => 0
    case ReleaseCandidate => 1
    case Gamma => 2
    case Beta => 3
    case Alpha => 4
  }

  /** ToString(EReleaseType): the release word, empty for None. */
  function ReleaseTypeToString(r: ReleaseType): (s: string)
    ensures s == "" <==> r == None
  {
    match r
    case None => ""
    case ReleaseCandidate => "rc"
    case Gamma => "gamma"
    case Beta => "beta"
    case Alpha => "alpha"
  }

  // ---------------------------------------------------------------- the SemVer value

  datatype SemVer = SemVer(majorVersion: U32, minorVersion: U32, patchVersion: U32,
                           releaseType: ReleaseType, buildMetadata: string)

  /**
   * SemVer::ToString: "major.minor.patch", then "-" and the release word
   * unless the release type is None, then "+" and the build metadata unless
   * it is empty.
   */
  function VersionText(v: SemVer): (s: string)
    ensures |CoreText(v)| < |s| || (s == CoreText(v) && v.releaseType == None && v.buildMetadata == "")
    ensures s[..|CoreText(v)|] == CoreText(v)
    ensures v.buildMetadata != "" ==>
              |s| > |v.buildMetadata| && s[|s| - |v.buildMetadata| - 1..] == "+" + v.buildMetadata
    ensures v.buildMetadata == "" && v.releaseType == None ==> s == CoreText(v)
    ensures v.buildMetadata == "" && v.releaseType != None ==>
              s == CoreText(v) + "-" + ReleaseTypeToString(v.releaseType)
    ensures v.buildMetadata != "" && v.releaseType != None ==>
              s == CoreText(v) + "-" + ReleaseTypeToString(v.releaseType) + "+" + v.buildMetadata
    ensures v.buildMetadata != "" && v.releaseType == None ==>
              s == CoreText(v) + "+" + v.buildMetadata
  {
    var core := CoreText(v);
    var release := if v.releaseType != None then "-" + ReleaseTypeToString(v.releaseType) else "";
    var metadata := if |v.buildMetadata| > 0 then "+" + v.buildMetadata else "";
    OuterParts(core, release, metadata);
    core + release + metadata
  }

  /** The first and the last of three joined parts are a prefix and a suffix of the whole. */
  lemma OuterParts(a: string, b: string, c: string)
    ensures (a + b + c)[..|a|] == a && (a + b + c)[|a| + |b|..] == c
  {
  }

  /** The three numbers of a version in decimal, joined by dots. */
  function CoreText(v: SemVer): string {
    ToString.DecimalText(v.majorVersion) + "." + ToString.DecimalText(v.minorVersion) + "." +
    ToString.DecimalText(v.patchVersion)
  }

  /** The three numbers of the text read back as the version's numbers (the dots separate them). */
  lemma CoreTextReadsBack(v: SemVer)
    ensures var t, a, b := CoreText(v), ToString.DecimalText(v.majorVersion), ToString.DecimalText(v.minorVersion);
      var c := ToString.DecimalText(v.patchVersion);
      |a| + |b| + 2 < |t| && t[|a|] == '.' && t[|a| + 1 + |b|] == '.' &&
      t[..|a|] == a && t[|a| + 1..|a| + 1 + |b|] == b && t[|a| + |b| + 2..] == c &&
      ToString.ReadDecimal(a) == v.majorVersion && ToString.ReadDecimal(b) == v.minorVersion &&
      ToString.ReadDecimal(c) == v.patchVersion
  {
    JoinedParts(v.majorVersion, v.minorVersion, v.patchVersion);
  }

  lemma JoinedParts(x: int, y: int, z: int)
    ensures var a, b, c := ToString.DecimalText(x), ToString.DecimalText(y), ToString.DecimalText(z);
      var t := a + "." + b + "." + c;
      |a| + |b| + 2 < |t| && t[|a|] == '.' && t[|a| + 1 + |b|] == '.' &&
      t[..|a|] == a && t[|a| + 1..|a| + 1 + |b|] == b && t[|a| + |b| + 2..] == c &&
      ToString.ReadDecimal(a) == x && ToString.ReadDecimal(b) == y && ToString.ReadDecimal(c) == z
  {
    var a, b, c := ToString.DecimalText(x), ToString.DecimalText(y), ToString.DecimalText(z);
    SplitJoined(a, b, c);
    ToString.DecimalRoundTrip(x);
    ToString.DecimalRoundTrip(y);
    ToString.DecimalRoundTrip(z);
  }

  lemma SplitJoined(a: string, b: string, c: string)
    requires |c| >= 1
    ensures var t := a + "." + b + "." + c;
      |a| + |b| + 2 < |t| && t[|a|] == '.' && t[|a| + 1 + |b|] == '.' &&
      t[..|a|] == a && t[|a| + 1..|a| + 1 + |b|] == b && t[|a| + |b| + 2..] == c
  {
  }

  /** The constructors taking a packed u32 version. */
  function FromPackedVersion(version: U32, releaseType: ReleaseType, buildMetadata: string): (v: SemVer)
    ensures v.majorVersion < 0x100 && v.minorVersion < 0x100 && v.patchVersion < 0x1_0000
    ensures v.releaseType == releaseType && v.buildMetadata == buildMetadata
  {
    SemVer(GetMajorVersion(version), GetMinorVersion(version), GetPatchVersion(version), releaseType, buildMetadata)
  }

  /** Packing a version and building a SemVer from it keeps its three numbers. */
  lemma FromPackedVersionOfMake(majorVersion: U8, minorVersion: U8, patchVersion: U16, r: ReleaseType, m: string)
    ensures FromPackedVersion(MakeVersion(majorVersion, minorVersion, patchVersion), r, m)
         == SemVer(majorVersion, minorVersion, patchVersion, r, m)
  {
    GetOfMakeVersion(majorVersion, minorVersion, patchVersion);
  }

  /** Two versions agree on everything but the build metadata. */
  predicate SameCore(a: SemVer, b: SemVer) {
    a.majorVersion == b.majorVersion && a.minorVersion == b.minorVersion &&
    a.patchVersion == b.patchVersion && a.releaseType == b.releaseType
  }

  /** operator==: the numbers and the release type; the metadata only when both sides have some. */
  predicate Eq(a: SemVer, b: SemVer) {
    if a.majorVersion != b.majorVersion then false
    else if a.minorVersion != b.minorVersion then false
    else if a.patchVersion != b.patchVersion then false
    else if a.releaseType != b.releaseType then false
    else if a.buildMetadata != b.buildMetadata then !(|a.buildMetadata| != 0 && |b.buildMetadata| != 0)
    else true
  }

  /** operator!=. */
  predicate Ne(a: SemVer, b: SemVer) {
    !Eq(a, b)
  }

  /** operator<: major, minor, patch, then the release type with the larger enumerator first. */
  predicate Lt(a: SemVer, b: SemVer) {
    if a.majorVersion < b.majorVersion then true
    else if a.majorVersion == b.majorVersion then
      (if a.minorVersion < b.minorVersion then true
       else if a.minorVersion == b.minorVersion then
         (if a.patchVersion < b.patchVersion then true
          else if a.patchVersion == b.patchVersion then Ordinal(a.releaseType) > Ordinal(b.releaseType)
          else false)
       else false)
    else false
  }

  /** operator>: the mirror image of operator<, written out separately. */
  predicate Gt(a: SemVer, b: SemVer) {
    if a.majorVersion > b.majorVersion then true
    else if a.majorVersion == b.majorVersion then
      (if a.minorVersion > b.minorVersion then true
       else if a.minorVersion == b.minorVersion then
         (if a.patchVersion > b.patchVersion then true
          else if a.patchVersion == b.patchVersion then Ordinal(a.releaseType) < Ordinal(b.releaseType)
          else false)
       else false)
    else false
  }

  /** operator<=. */
  predicate Le(a: SemVer, b: SemVer) {
    Lt(a, b) || Eq(a, b)
  }

  /** operator>=. */
  predicate Ge(a: SemVer, b: SemVer) {
    Gt(a, b) || Eq(a, b)
  }

  // ---------------------------------------------------------------- a reference ordering

  /** The sort key of a version: its numbers, then how close its release type is to a release. */
  function Key(a: SemVer): seq<int> {
    [a.majorVersion, a.minorVersion, a.patchVersion, 4 - Ordinal(a.releaseType)]
  }

  /** Strict lexicographic order on keys of equal length. */
  predicate LexLess(x: seq<int>, y: seq<int>)
    requires |x| == |y|
    decreases |x|
  {
    |x| > 0 && (x[0] < y[0] || (x[0] == y[0] && LexLess(x[1..], y[1..])))
  }

  /** Equal keys mean the same version up to metadata. */
  lemma KeyDeterminesCore(a: SemVer, b: SemVer)
    ensures Key(a) == Key(b) <==> SameCore(a, b)
  {
    if Key(a) == Key(b) {
      assert Key(a)[3] == Key(b)[3];
    }
  }

  /** operator< is the lexicographic order on the keys. */
  lemma LtIsKeyOrder(a: SemVer, b: SemVer)
    ensures Lt(a, b) <==> LexLess(Key(a), Key(b))
  {
    var x, y := Key(a), Key(b);
    var x1, y1 := x[1..], y[1..];
    var x2, y2 := x1[1..], y1[1..];
    var x3, y3 := x2[1..], y2[1..];
    assert x3 == [4 - Ordinal(a.releaseType)] && y3 == [4 - Ordinal(b.releaseType)];
    assert LexLess(x3, y3) == (x3[0] < y3[0]) by {
      assert !LexLess(x3[1..], y3[1..]);
    }
    assert LexLess(x2, y2) == (x2[0] < y2[0] || (x2[0] == y2[0] && LexLess(x3, y3)));
    assert LexLess(x1, y1) == (x1[0] < y1[0] || (x1[0] == y1[0] && LexLess(x2, y2)));
    assert LexLess(x, y) == (x[0] < y[0] || (x[0] == y[0] && LexLess(x1, y1)));
  }

  /** operator> holds exactly when operator< holds the other way round. */
  lemma GtIsConverse(a: SemVer, b: SemVer)
    ensures Gt(a, b) <==> Lt(b, a)
  {
  }

  /** operator< is irreflexive, asymmetric and transitive. */
  lemma LtIsStrictOrder(a: SemVer, b: SemVer, c: SemVer)
    ensures !Lt(a, a)
    ensures Lt(a, b) ==> !Lt(b, a)
    ensures Lt(a, b) && Lt(b, c) ==> Lt(a, c)
  {
  }

  /** Any two versions are ordered one way or the other, or agree up to metadata. */
  lemma Trichotomy(a: SemVer, b: SemVer)
    ensures Lt(a, b) || Gt(a, b) || SameCore(a, b)
    ensures !(Lt(a, b) && Gt(a, b)) && !(Lt(a, b) && SameCore(a, b)) && !(Gt(a, b) && SameCore(a, b))
  {
  }

  /** Build metadata never affects operator< or operator>. */
  lemma OrderIgnoresMetadata(a: SemVer, b: SemVer, m: string, n: string)
    ensures Lt(a.(buildMetadata := m), b.(buildMetadata := n)) == Lt(a, b)
    ensures Gt(a.(buildMetadata := m), b.(buildMetadata := n)) == Gt(a, b)
  {
  }

  /** operator== is the core comparison, plus the metadata when both sides carry it. */
  lemma EqMeaning(a: SemVer, b: SemVer)
    ensures Eq(a, b) <==>
      (SameCore(a, b) && (a.buildMetadata == b.buildMetadata || a.buildMetadata == "" || b.buildMetadata == ""))
  {
  }

  /** operator== is reflexive and symmetric, and operator!= is its negation. */
  lemma EqReflexiveSymmetric(a: SemVer, b: SemVer)
    ensures Eq(a, a)
    ensures Eq(a, b) == Eq(b, a)
    ensures Ne(a, b) <==> !Eq(a, b)
  {
  }

  /** ... but not transitive: a version without metadata equals two that differ from each other. */
  lemma EqNotTransitive()
    ensures var a, b, c := SemVer(1, 0, 0, None, "a"), SemVer(1, 0, 0, None, ""), SemVer(1, 0, 0, None, "b");
      Eq(a, b) && Eq(b, c) && !Eq(a, c)
  {
  }

  /** operator<= and operator>= are the non-strict orders: they exclude the opposite strict order. */
  lemma NonStrictOrders(a: SemVer, b: SemVer)
    ensures Le(a, b) ==> !Gt(a, b)
    ensures Ge(a, b) ==> !Lt(a, b)
    ensures Le(a, b) <==> Ge(b, a)
    ensures Lt(a, b) || Ge(a, b) || (SameCore(a, b) && !Eq(a, b))
  {
  }

  /** Alpha < Beta < Gamma < ReleaseCandidate < Release for the same numbers. */
  lemma ReleaseTypeOrder(major: U32, minor: U32, patch: U32)
    ensures var v := (r: ReleaseType) => SemVer(major, minor, patch, r, "");
      Lt(v(Alpha), v(Beta)) && Lt(v(Beta), v(Gamma)) && Lt(v(Gamma), v(ReleaseCandidate)) &&
      Lt(v(ReleaseCandidate), v(None))
  {
  }
}
