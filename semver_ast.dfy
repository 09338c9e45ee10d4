/*
 * SemVerConstraintAST (semver/SemVerConstraintAST.hpp): the constraint tree,
 * the Tilde and Caret shorthands, and SemVerConstraintExecutor, which
 * evaluates a tree against one version.
 *
 * A null Ref is the constructor Null. The executor only reads the version it
 * was built with, so it is the parameter `current` of Execute.
 */
module SemVerAst {

  import opened SemVer

  datatype Constraint =
    | Null
    | Equal(target: SemVer)
    | NotEqual(target: SemVer)
    | Less(target: SemVer)
    | LessEqual(target: SemVer)
    | Greater(target: SemVer)
    | GreaterEqual(target: SemVer)
    | And(left: Constraint, right: Constraint)
    | Or(left: Constraint, right: Constraint)

  /** SemVerConstraintExecutor::Execute: each node applies its operator to (current, target). */
  predicate Execute(ast: Constraint, current: SemVer) {
    match ast
    case Null => false
    case Equal(t) => Eq(current, t)
    case NotEqual(t) => Ne(current, t)
    case Greater(t) => Gt(current, t)
    case GreaterEqual(t) => Ge(current, t)
    case Less(t) => Lt(current, t)
    case LessEqual(t) => Le(current, t)
    case And(l, r) => Execute(l, current) && Execute(r, current)
    case Or(l, r) => Execute(l, current) || Execute(r, current)
  }

  /** The lowest version with the given numbers: its release type is Alpha. */
  function AlphaOf(major: U32, minor: U32, patch: U32): SemVer {
    SemVer(major, minor, patch, Alpha, "")
  }

  /** Tilde: at least the version and below the next major (no patch given) or the next minor. */
  function Tilde(c: SemVer): (r: Constraint)
    ensures r.And? && r.left == GreaterEqual(c) && r.right.Less?
  {
    if |c.buildMetadata| == 0 then And(GreaterEqual(c), Less(AlphaOf(WrapAdd32(c.majorVersion, 1), 0, 0)))
    else And(GreaterEqual(c), Less(AlphaOf(c.majorVersion, WrapAdd32(c.minorVersion, 1), 0)))
  }

  /** Caret: at least the version and below the next major, or for major 0 the next minor or patch. */
  function Caret(c: SemVer): (r: Constraint)
    ensures r.And? && r.left == GreaterEqual(c) && r.right.Less?
  {
    if c.majorVersion == 0 then
      (if |c.buildMetadata| == 0 then And(GreaterEqual(c), Less(AlphaOf(c.majorVersion, WrapAdd32(c.minorVersion, 1), 0)))
       else And(GreaterEqual(c), Less(AlphaOf(c.majorVersion, c.minorVersion, WrapAdd32(c.patchVersion, 1)))))
    else And(GreaterEqual(c), Less(AlphaOf(WrapAdd32(c.majorVersion, 1), 0, 0)))
  }

  // ---------------------------------------------------------------- what the nodes accept

  /** A null tree accepts nothing, and != is the negation of ==. */
  lemma NullAndNotEqual(t: SemVer, v: SemVer)
    ensures !Execute(Null, v)
    ensures Execute(NotEqual(t), v) <==> !Execute(Equal(t), v)
  {
  }

  /** The ordering nodes read the version against the target: v < t exactly when t > v, and so on. */
  lemma OrderingNodes(t: SemVer, v: SemVer)
    ensures Execute(Less(t), v) <==> Gt(t, v)
    ensures Execute(Greater(t), v) <==> Lt(t, v)
    ensures Execute(LessEqual(t), v) <==> Ge(t, v)
    ensures Execute(GreaterEqual(t), v) <==> Le(t, v)
  {
    GtIsConverse(t, v);
    GtIsConverse(v, t);
    EqReflexiveSymmetric(t, v);
  }

  /** Below the Alpha of the next major exactly when the major is at most the given one. */
  lemma BelowNextMajor(v: SemVer, major: U32)
    requires major < 0xFFFF_FFFF
    ensures Lt(v, AlphaOf(major + 1, 0, 0)) <==> v.majorVersion <= major
  {
  }

  /** At least c, and no higher major, minor or patch than the bound allows. */
  lemma AtLeastMeansNotBelow(v: SemVer, c: SemVer)
    ensures Ge(v, c) ==> v.majorVersion >= c.majorVersion
    ensures Ge(v, c) && v.majorVersion == c.majorVersion ==> v.minorVersion >= c.minorVersion
    ensures Ge(v, c) && v.majorVersion == c.majorVersion && v.minorVersion == c.minorVersion ==>
              v.patchVersion >= c.patchVersion
  {
  }

  /** ~M.m accepts exactly the versions at least M.m with the same major. */
  lemma TildeWithoutPatch(c: SemVer, v: SemVer)
    requires |c.buildMetadata| == 0 && c.majorVersion < 0xFFFF_FFFF
    ensures Execute(Tilde(c), v) <==> Ge(v, c) && v.majorVersion == c.majorVersion
  {
    BelowNextMajor(v, c.majorVersion);
    AtLeastMeansNotBelow(v, c);
  }

  /** ~M.m.p accepts exactly the versions at least M.m.p with the same major and minor. */
  lemma TildeWithPatch(c: SemVer, v: SemVer)
    requires |c.buildMetadata| != 0 && c.minorVersion < 0xFFFF_FFFF
    ensures Execute(Tilde(c), v) <==>
      Ge(v, c) && v.majorVersion == c.majorVersion && v.minorVersion == c.minorVersion
  {
    AtLeastMeansNotBelow(v, c);
  }

  /** ^M.m.p for M > 0 (with or without patch) accepts the versions at least c with the same major. */
  lemma CaretMajor(c: SemVer, v: SemVer)
    requires c.majorVersion != 0 && c.majorVersion < 0xFFFF_FFFF
    ensures Execute(Caret(c), v) <==> Ge(v, c) && v.majorVersion == c.majorVersion
  {
    BelowNextMajor(v, c.majorVersion);
    AtLeastMeansNotBelow(v, c);
  }

  /** ^0.m accepts the versions at least 0.m with major 0 and the same minor. */
  lemma CaretZeroWithoutPatch(c: SemVer, v: SemVer)
    requires c.majorVersion == 0 && |c.buildMetadata| == 0 && c.minorVersion < 0xFFFF_FFFF
    ensures Execute(Caret(c), v) <==> Ge(v, c) && v.majorVersion == 0 && v.minorVersion == c.minorVersion
  {
    AtLeastMeansNotBelow(v, c);
  }

  /** ^0.m.p accepts the versions at least 0.m.p with the same major, minor and patch. */
  lemma CaretZeroWithPatch(c: SemVer, v: SemVer)
    requires c.majorVersion == 0 && |c.buildMetadata| != 0 && c.patchVersion < 0xFFFF_FFFF
    ensures Execute(Caret(c), v) <==>
      Ge(v, c) && v.majorVersion == 0 && v.minorVersion == c.minorVersion && v.patchVersion == c.patchVersion
  {
    AtLeastMeansNotBelow(v, c);
  }

  /** When the major is the largest u32 the bound wraps to 0.0.0-alpha and ~ accepts nothing. */
  lemma TildeAtLargestMajor(c: SemVer, v: SemVer)
    requires |c.buildMetadata| == 0 && c.majorVersion == 0xFFFF_FFFF
    ensures !Execute(Tilde(c), v)
  {
  }

  /** And(>= lo, <= hi) accepts every version between lo and hi, ends included. */
  lemma RangeAccepts(lo: SemVer, hi: SemVer, v: SemVer)
    requires Le(lo, v) && Le(v, hi)
    ensures Execute(And(GreaterEqual(lo), LessEqual(hi)), v)
  {
    OrderingNodes(lo, v);
  }

  /** Or(< v, > v) rejects v itself. */
  lemma OutsideRejectsSelf(v: SemVer)
    ensures !Execute(Or(Less(v), Greater(v)), v)
  {
    LtIsStrictOrder(v, v, v);
    GtIsConverse(v, v);
  }
}
