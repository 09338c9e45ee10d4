/*
 * ValidatePathPrefix (PathSanitizer.hpp): classifies the start of a Win32
 * path (UNC, local device "\\.\", root local device "\\?\", the "\??\"
 * bypass, rooted, drive absolute, drive relative), rejects the forms the
 * settings block, and rewrites the bypass form to "\\?\" in place.
 */
module PathPrefix {

  import opened Wrappers
  import opened PathText

  /** PathSanitizerSettings: one flag per path form or check. */
  datatype Settings = Settings(
    BlockUNCPath: bool,
    BlockLocalDevicePath: bool,
    BlockLocalDeviceDriveAbsolutePath: bool,
    BlockRootLocalDevicePath: bool,
    BlockRootLocalDeviceDriveAbsolutePath: bool,
    BlockRootLocalDeviceDriveRelativePath: bool,
    BlockDriveAbsolutePath: bool,
    BlockDriveRelativePath: bool,
    BlockRootedPath: bool,
    BlockDevices: bool,
    BlockNonLetterDrive: bool,
    BlockDisallowedCharacters: bool)

  /** The TIPDefault settings: UNC paths, devices, non-letter drives and disallowed characters blocked. */
  const Default := Settings(true, false, false, false, false, false, false, false, false, true, true, true)

  /** The TIPRecommended settings: every flag set. */
  const Recommended := Settings(true, true, true, true, true, true, true, true, true, true, true, true)

  /**
   * The BlockNonLetterDrive test.  As written it asks whether path[2] is a
   * letter, which in the branches where it runs is always '.' or '?';
   * corrected, it asks whether the drive character path[4] is not a letter.
   */
  predicate NonLetterDrive(s: seq<char>, corrected: bool)
    requires |s| >= 6
  {
    if corrected then !IsAlpha(s[4]) else IsAlpha(s[2])
  }

  /**
   * The outcome of ValidatePathPrefix on the path s (the buffer holds s and
   * then its NUL terminator): None when the path is rejected, otherwise the
   * path as the call leaves it.
   */
  function Checked(s: seq<char>, st: Settings, corrected: bool): (r: Option<seq<char>>)
    ensures r.Some? ==> |r.value| == |s| && forall k :: 0 <= k < |s| && k != 1 ==> r.value[k] == s[k]
  {
    if |s| < 1 then None
    else if s[0] == '\\' then
      if |s| < 2 then None
      else if s[1] == '\\' then DoubleRootChecked(s, st, corrected)
      else if s[1] == '?' then
        if st.BlockRootLocalDevicePath then None
        else if |s| >= 4 && s[2] == '?' && s[3] == '\\' then Some(s[1 := '\\'])
        else None
      else if st.BlockRootedPath || ':' in s[1..] then None
      else Some(s)
    else if |s| >= 3 && s[1] == ':' then
      if s[2] == '\\' then
        if st.BlockDriveAbsolutePath then None else Some(s)
      else if st.BlockDriveRelativePath then None
      else Some(s)
    else Some(s)
  }

  /**
   * The paths starting "\\": UNC paths, local device paths "\\.\" and root
   * local device paths "\\?\".  None of them is rewritten.
   */
  function DoubleRootChecked(s: seq<char>, st: Settings, corrected: bool): (r: Option<seq<char>>)
    requires |s| >= 2 && s[0] == '\\' && s[1] == '\\'
    ensures r.Some? ==> r.value == s
  {
    if |s| < 3 then Some(s)
    else if s[2] == '.' then
      if st.BlockLocalDevicePath then None
      else if At(s, 3) != '\\' then None
      else if |s| >= 6 && s[5] == ':' then
        if st.BlockLocalDeviceDriveAbsolutePath then None
        else if st.BlockNonLetterDrive && NonLetterDrive(s, corrected) then None
        else if |s| < 7 || s[6] != '\\' then None
        else Some(s)
      else Some(s)
    else if s[2] == '?' then
      if st.BlockRootLocalDevicePath then None
      else if At(s, 3) != '\\' then None
      else if |s| >= 6 && s[5] == ':' then
        if |s| >= 7 && s[6] == '\\' && st.BlockRootLocalDeviceDriveAbsolutePath then None
        else if !(|s| >= 7 && s[6] == '\\') && st.BlockRootLocalDeviceDriveRelativePath then None
        else if st.BlockNonLetterDrive && NonLetterDrive(s, corrected) then None
        else Some(s)
      else Some(s)
    else if st.BlockUNCPath || ':' in s[1..] then None
    else Some(s)
  }

  /** ValidatePathPrefix with the drive-letter test corrected. */
  function Prefix(s: seq<char>, st: Settings): (r: Option<seq<char>>)
    ensures r.Some? ==> |r.value| == |s|
  {
    Checked(s, st, true)
  }

  /** The scan of UNC and rooted paths: no ':' from index 1 on. */
  method NoColonAfterFirst(path: array<char>, length: nat) returns (ok: bool)
    requires 1 <= length <= path.Length
    ensures ok == (':' !in path[1..length])
  {
    var i := 1;
    while i < length
      invariant 1 <= i <= length
      invariant ':' !in path[1..i]
    {
      if path[i] == ':' {
        assert path[1..length][i - 1] == ':';
        return false;
      }
      assert path[1..i + 1] == path[1..i] + [path[i]];
      i := i + 1;
    }
    return true;
  }

  /** The "\\\\" branch of ValidatePathPrefix; it reads the buffer and changes nothing. */
  method ValidateDoubleRoot(path: array<char>, length: nat, settings: Settings) returns (ok: bool)
    requires 2 <= length < path.Length && path[length] == Nul
    requires path[0] == '\\' && path[1] == '\\'
    ensures ok == DoubleRootChecked(path[..length], settings, true).Some?
  {
    ghost var s := path[..length];
    assert s[1..] == path[1..length];
    if length >= 3 {
      if path[2] == '.' {
        if settings.BlockLocalDevicePath {
          return false;
        }
        if length < 3 || path[3] != '\\' {
          return false;
        }
        if length >= 6 && path[5] == ':' {
          if settings.BlockLocalDeviceDriveAbsolutePath {
            return false;
          }
          if settings.BlockNonLetterDrive {
            if !IsAlpha(path[4]) {
              return false;
            }
          }
          if length < 7 || path[6] != '\\' {
            return false;
          }
        }
      } else if path[2] == '?' {
        if settings.BlockRootLocalDevicePath {
          return false;
        }
        if length < 3 || path[3] != '\\' {
          return false;
        }
        if length >= 6 && path[5] == ':' {
          if length >= 7 && path[6] == '\\' {
            if settings.BlockRootLocalDeviceDriveAbsolutePath {
              return false;
            }
          } else if settings.BlockRootLocalDeviceDriveRelativePath {
            return false;
          }
          if settings.BlockNonLetterDrive {
            if !IsAlpha(path[4]) {
              return false;
            }
          }
        }
      } else {
        if settings.BlockUNCPath {
          return false;
        }
        ok := NoColonAfterFirst(path, length);
        return;
      }
    }
    return true;
  }

  /**
   * ValidatePathPrefix on a buffer holding `length` characters and then
   * NUL.  The result and the buffer afterwards are those Prefix gives;
   * a rejected path is left as it was.
   */
  method ValidatePathPrefix(path: array<char>, length: nat, settings: Settings) returns (ok: bool)
    requires length < path.Length && path[length] == Nul
    modifies path
    ensures ok == Prefix(old(path[..length]), settings).Some?
    ensures ok ==> path[..length] == Prefix(old(path[..length]), settings).value
    ensures !ok ==> path[..] == old(path[..])
    ensures path[length..] == old(path[length..])
  {
    ghost var s := path[..length];
    assert length >= 1 ==> s[1..] == path[1..length];
    if length < 1 {
      return false;
    }
    if path[0] == '\\' {
      if length >= 2 {
        if path[1] == '\\' {
          ok := ValidateDoubleRoot(path, length, settings);
          return;
        } else if path[1] == '?' {
          if settings.BlockRootLocalDevicePath {
            return false;
          }
          if length >= 4 && path[2] == '?' && path[3] == '\\' {
            path[1] := '\\';
          } else {
            return false;
          }
        } else {
          if settings.BlockRootedPath {
            return false;
          }
          ok := NoColonAfterFirst(path, length);
          return;
        }
      } else {
        return false;
      }
    } else {
      if length >= 2 {
        if path[1] == ':' {
          if length >= 3 {
            if path[2] == '\\' {
              if settings.BlockDriveAbsolutePath {
                return false;
              }
            } else {
              if settings.BlockDriveRelativePath {
                return false;
              }
            }
          }
        }
      }
    }
    return true;
  }

  // ---------------------------------------------------------------------
  // Properties of the prefix check

  /** The forms of path the settings name, by their first characters. */
  datatype Form =
    | Unc                           // \\server
    | LocalDevice                   // \\.\
    | RootLocalDevice               // \\?\ or \??\
    | Rooted                        // \dir
    | DriveAbsolute                 // C:\
    | DriveRelative                 // C:dir
    | Other

  function FormOf(s: seq<char>): (f: Form)
    ensures f == Unc ==> |s| >= 3 && s[..2] == "\\\\"
    ensures f == Rooted ==> |s| >= 2 && s[0] == '\\' && !IsSep(s[1]) && s[1] != '?'
  {
    if |s| >= 3 && s[0] == '\\' && s[1] == '\\' then
      if s[2] == '.' then LocalDevice
      else if s[2] == '?' then RootLocalDevice
      else Unc
    else if |s| >= 2 && s[0] == '\\' && s[1] == '?' then RootLocalDevice
    else if |s| >= 2 && s[0] == '\\' && s[1] != '\\' && s[1] != '/' then Rooted
    else if |s| >= 3 && s[0] != '\\' && s[1] == ':' then
      if s[2] == '\\' then DriveAbsolute else DriveRelative
    else Other
  }

  /** The flag that blocks a form. */
  predicate Blocks(st: Settings, f: Form)
  {
    match f
    case Unc => st.BlockUNCPath
    case LocalDevice => st.BlockLocalDevicePath
    case RootLocalDevice => st.BlockRootLocalDevicePath
    case Rooted => st.BlockRootedPath
    case DriveAbsolute => st.BlockDriveAbsolutePath
    case DriveRelative => st.BlockDriveRelativePath
    case Other => false
  }

  /** Each Block flag rejects every path of its form. */
  lemma BlockedFormRejected(s: seq<char>, st: Settings)
    requires Blocks(st, FormOf(s))
    ensures Prefix(s, st) == None
  {
  }

  /** The drive forms inside the device namespaces are rejected by their own flags. */
  lemma BlockedDeviceDriveRejected(d: char, rest: seq<char>, st: Settings)
    ensures st.BlockLocalDeviceDriveAbsolutePath ==> Prefix("\\\\.\\" + [d] + ":" + rest, st) == None
    ensures st.BlockRootLocalDeviceDriveAbsolutePath ==> Prefix("\\\\?\\" + [d] + ":\\" + rest, st) == None
    ensures st.BlockRootLocalDeviceDriveRelativePath && (rest == [] || rest[0] != '\\') ==>
      Prefix("\\\\?\\" + [d] + ":" + rest, st) == None
  {
    var p := "\\\\?\\" + [d] + ":" + rest;
    assert |p| >= 7 ==> p[6] == rest[0];
  }

  /** The empty path and a lone "\" are rejected under any settings. */
  lemma EmptyAndLoneRootRejected(st: Settings)
    ensures Prefix([], st) == None && Prefix("\\", st) == None
  {
  }

  /** A UNC or rooted path holding ':' anywhere is rejected under any settings. */
  lemma ColonInUncOrRootedRejected(s: seq<char>, st: Settings)
    requires FormOf(s) == Unc || FormOf(s) == Rooted
    requires ':' in s
    ensures Prefix(s, st) == None
  {
    assert s[0] != ':';
    assert s == [s[0]] + s[1..];
  }

  /** With no flag set, a well-formed UNC or rooted path without ':' is accepted unchanged. */
  lemma UncAndRootedAcceptedWithoutFlags(s: seq<char>, st: Settings)
    requires FormOf(s) == Unc || FormOf(s) == Rooted
    requires ':' !in s && !Blocks(st, FormOf(s))
    ensures Prefix(s, st) == Some(s)
  {
    assert forall c :: c in s[1..] ==> c in s;
  }

  /** The "\??\" bypass is rewritten in place to "\\?\" unless root local devices are blocked. */
  lemma BypassRewritten(rest: seq<char>, st: Settings)
    ensures Prefix("\\??\\" + rest, st) ==
      if st.BlockRootLocalDevicePath then None else Some("\\\\?\\" + rest)
  {
    var s := "\\??\\" + rest;
    assert s[1 := '\\'] == "\\\\?\\" + rest;
  }

  /** A "\?" not followed by "?\" is malformed and rejected. */
  lemma MalformedBypassRejected(s: seq<char>, st: Settings)
    requires |s| >= 2 && s[0] == '\\' && s[1] == '?'
    requires |s| < 4 || s[2] != '?' || s[3] != '\\'
    ensures Prefix(s, st) == None
  {
  }

  /** A drive that is not a letter is rejected behind "\\.\" and "\\?\" when BlockNonLetterDrive is set. */
  lemma NonLetterDriveRejected(d: char, rest: seq<char>, st: Settings)
    requires st.BlockNonLetterDrive && !IsAlpha(d)
    ensures Prefix("\\\\.\\" + [d] + ":" + rest, st) == None
    ensures Prefix("\\\\?\\" + [d] + ":" + rest, st) == None
  {
  }

  /** A letter drive behind "\\.\" is accepted under the default settings. */
  lemma LetterDriveAccepted(d: char, rest: seq<char>)
    requires IsAlpha(d)
    ensures Prefix("\\\\.\\" + [d] + ":\\" + rest, Default) == Some("\\\\.\\" + [d] + ":\\" + rest)
  {
  }

  /**
   * As written, BlockNonLetterDrive never changes the outcome: it tests
   * path[2], which is '.' or '?' wherever the test runs.
   */
  lemma NonLetterDriveInertAsWritten(s: seq<char>, st: Settings)
    ensures Checked(s, st, false) == Checked(s, st.(BlockNonLetterDrive := false), false)
  {
  }

  /** As written, "\\.\1:\" passes the default settings although its drive is not a letter. */
  lemma DigitDriveAcceptedAsWritten()
    ensures Checked("\\\\.\\1:\\", Default, false).Some?
    ensures Prefix("\\\\.\\1:\\", Default) == None
  {
  }

  /**
   * Two forms fall through every test: "C:" (a drive relative path of two
   * characters) and "\\" alone are accepted even under the recommended
   * settings.
   */
  lemma ShortFormsAccepted()
    ensures Prefix("C:", Recommended) == Some("C:")
    ensures Prefix("\\\\", Recommended) == Some("\\\\")
  {
  }
}
