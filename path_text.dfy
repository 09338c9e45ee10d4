/*
 * Text helpers shared by the path sanitizer: separators, and the reading of
 * NUL-terminated wide-character buffers.
 */
module PathText {

  const Nul: char := '\0'

  /** A Win32 path separator. */
  predicate IsSep(c: char)
  {
    c == '\\' || c == '/'
  }

  /**
   * The character at index k of a buffer holding s followed by its NUL
   * terminator: reading at or past the length yields NUL.
   */
  function At(s: seq<char>, k: nat): (r: char)
    ensures k < |s| ==> r == s[k]
    ensures k >= |s| ==> r == Nul
  {
    if k < |s| then s[k] else Nul
  }

  /** The string a NUL-terminated buffer holds: everything before the first NUL. */
  function BeforeNul(s: seq<char>): (r: seq<char>)
    ensures Nul !in r
    ensures |r| <= |s|
    ensures r == s[..|r|]
    ensures |r| < |s| ==> s[|r|] == Nul
    ensures Nul in s ==> |r| < |s|
  {
    if s == [] || s[0] == Nul then [] else [s[0]] + BeforeNul(s[1..])
  }

  /** iswdigit on the ASCII digits. */
  predicate IsDigit(c: char)
  {
    '0' <= c <= '9'
  }

  /** iswalpha on the ASCII letters. */
  predicate IsAlpha(c: char)
  {
    'A' <= c <= 'Z' || 'a' <= c <= 'z'
  }
}
