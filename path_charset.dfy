/*
 * The character-level checks and rewrites of the path sanitizer
 * (PathSanitizer.hpp): IsValidCharset, CharMatches and FixPathSeparator.
 */
module PathCharset {

  import opened PathText

  /** The characters a Win32 file name may not contain. */
  predicate Reserved(c: char)
  {
    c == '<' || c == '>' || c == '"' || c == '|' || c == '?' || c == '*'
  }

  /** The number of ':' in s. */
  function Colons(s: seq<char>): (r: nat)
    ensures r <= |s|
  {
    if s == [] then 0 else Colons(s[..|s| - 1]) + (if s[|s| - 1] == ':' then 1 else 0)
  }

  /** The index where the path component holding index i starts. */
  function ComponentStart(s: seq<char>, i: nat): (r: nat)
    requires i < |s|
    ensures r <= i
    ensures r == 0 || IsSep(s[r - 1])
    ensures forall k :: r <= k < i ==> !IsSep(s[k])
  {
    if i == 0 || IsSep(s[i - 1]) then i else ComponentStart(s, i - 1)
  }

  /**
   * Index i holds the '.' that ends a path component (the path ends or a
   * separator follows), and that component is neither "." nor "..".
   */
  predicate EndsInDot(s: seq<char>, i: nat)
    requires i < |s|
  {
    s[i] == '.' && (i + 1 == |s| || IsSep(s[i + 1]))
    && s[ComponentStart(s, i)..i + 1] != "." && s[ComponentStart(s, i)..i + 1] != ".."
  }

  /**
   * The charset rule: no reserved character, at most one ':', and no
   * component other than "." and ".." ending in '.'.
   */
  predicate ValidCharset(s: seq<char>)
  {
    (forall i :: 0 <= i < |s| ==> !Reserved(s[i]))
    && Colons(s) <= 1
    && (forall i :: 0 <= i < |s| ==> !EndsInDot(s, i))
  }

  /** The dot test IsValidCharset runs at index i, in its own terms. */
  predicate DotCheckFails(s: seq<char>, i: nat)
    requires i < |s|
  {
    s[i] == '.' && (i + 1 == |s| || IsSep(s[i + 1]))
    && i > 0 && !IsSep(s[i - 1])
    && (s[i - 1] != '.' || (i > 1 && !IsSep(s[i - 2])))
  }

  /** The character-by-character dot test is the component rule. */
  lemma DotCheckIsComponentRule(s: seq<char>, i: nat)
    requires i < |s|
    ensures DotCheckFails(s, i) <==> EndsInDot(s, i)
  {
    if s[i] == '.' && (i + 1 == |s| || IsSep(s[i + 1])) {
      var st := ComponentStart(s, i);
      if i == 0 || IsSep(s[i - 1]) {
        assert st == i;
        assert s[st..i + 1] == ".";
      } else if i == 1 || IsSep(s[i - 2]) {
        assert st == i - 1;
        assert s[st..i + 1] == [s[i - 1], '.'];
      } else {
        assert st <= i - 2;
        assert |s[st..i + 1]| >= 3;
      }
    }
  }

  lemma ColonsSnoc(s: seq<char>, c: char)
    ensures Colons(s + [c]) == Colons(s) + (if c == ':' then 1 else 0)
  {
    assert (s + [c])[..|s|] == s;
  }

  lemma ColonsPrefix(s: seq<char>, i: nat)
    requires i <= |s|
    ensures Colons(s[..i]) <= Colons(s)
  {
    assert s == s[..i] + s[i..];
    ColonsAppend(s[..i], s[i..]);
  }

  /**
   * The body of IsValidCharset's loop at index i: the tests the source runs
   * on one character, with the colon count so far.
   */
  method CheckCharAt(path: array<char>, length: nat, i: nat, colonCount: nat) returns (ok: bool, count: nat)
    requires length <= path.Length && i < length && colonCount == Colons(path[..i]) <= 1
    ensures ok ==> !Reserved(path[i]) && !EndsInDot(path[..length], i)
    ensures ok ==> count == Colons(path[..i + 1]) <= 1
    ensures !ok ==> !ValidCharset(path[..length])
  {
    ghost var s := path[..length];
    assert s[..i + 1] == s[..i] + [s[i]];
    assert s[..i] == path[..i] && s[..i + 1] == path[..i + 1];
    ColonsSnoc(s[..i], s[i]);
    DotCheckIsComponentRule(s, i);
    count := colonCount;
    if path[i] <= 31 as char {
      return true, count;
    }
    if Reserved(path[i]) {
      return false, count;
    }
    if path[i] == ':' {
      count := count + 1;
      if count > 1 {
        ColonsPrefix(s, i + 1);
        return false, count;
      }
    }
    if path[i] == '.' {
      if i + 1 == length || IsSep(path[i + 1]) {
        if i > 0 {
          if !IsSep(path[i - 1]) {
            if path[i - 1] == '.' {
              if i > 1 && !IsSep(path[i - 2]) {
                return false, count;
              }
            } else {
              return false, count;
            }
          }
        }
      }
    }
    ok := true;
  }

  /** IsValidCharset: decides the charset rule for the first `length` characters. */
  method IsValidCharset(path: array<char>, length: nat) returns (ok: bool)
    requires length <= path.Length
    ensures ok == ValidCharset(path[..length])
  {
    ghost var s := path[..length];
    var colonCount := 0;
    var i := 0;
    while i < length
      invariant i <= length
      invariant forall k :: 0 <= k < i ==> !Reserved(s[k]) && !EndsInDot(s, k)
      invariant colonCount == Colons(path[..i]) <= 1
    {
      var charOk;
      charOk, colonCount := CheckCharAt(path, length, i, colonCount);
      if !charOk {
        return false;
      }
      i := i + 1;
    }
    assert s == path[..i];
    ok := true;
  }

  /** A path of control characters alone passes the charset rule. */
  lemma ControlCharactersPass(s: seq<char>)
    requires forall i :: 0 <= i < |s| ==> s[i] <= 31 as char
    ensures ValidCharset(s)
  {
    ColonsNone(s);
  }

  lemma ColonsNone(s: seq<char>)
    requires ':' !in s
    ensures Colons(s) == 0
  {
    if s != [] {
      ColonsNone(s[..|s| - 1]);
    }
  }

  /** Two ':' anywhere make the path invalid. */
  lemma SecondColonRejected(a: seq<char>, b: seq<char>, c: seq<char>)
    ensures !ValidCharset(a + [':'] + b + [':'] + c)
  {
    var s := a + [':'] + b + [':'] + c;
    var k := |a + [':'] + b| + 1;
    assert s[..k] == a + [':'] + b + [':'];
    ColonsSnoc(a + [':'] + b, ':');
    ColonsSnoc(a, ':');
    assert (a + [':']) + b == a + [':'] + b;
    ColonsAppend(a + [':'], b);
    ColonsPrefix(s, k);
  }

  lemma {:induction false} ColonsAppend(a: seq<char>, b: seq<char>)
    ensures Colons(a + b) >= Colons(a)
    decreases |b|
  {
    if b == [] {
      assert a + b == a;
    } else {
      var last := b[|b| - 1];
      var front := b[..|b| - 1];
      assert a + b == (a + front) + [last];
      ColonsSnoc(a + front, last);
      ColonsAppend(a, front);
    }
  }

  /** A name ending in '.' before a separator is rejected; "." and ".." are not names of that kind. */
  lemma TrailingDotRejected(dir: seq<char>, name: seq<char>, rest: seq<char>)
    requires |name| >= 1 && (forall k :: 0 <= k < |name| ==> !IsSep(name[k]))
    requires name + ['.'] != "." && name + ['.'] != ".."
    ensures !ValidCharset(dir + ['\\'] + name + ['.'] + ['\\'] + rest)
  {
    var s := dir + ['\\'] + name + ['.'] + ['\\'] + rest;
    var i := |dir| + 1 + |name|;
    assert s[i] == '.' && IsSep(s[i + 1]);
    var st := ComponentStart(s, i);
    assert IsSep(s[|dir|]);
    assert forall k :: |dir| + 1 <= k < i ==> s[k] == name[k - |dir| - 1];
    assert st == |dir| + 1;
    assert s[st..i + 1] == name + ['.'];
    assert EndsInDot(s, i);
  }

  // ---------------------------------------------------------------------
  // CharMatches and FixPathSeparator

  /** CharMatches: whether c is one of the characters of the NUL-terminated charset. */
  method CharMatches(c: char, charset: array<char>) returns (r: bool)
    requires Nul in charset[..]
    ensures r == (c in BeforeNul(charset[..]))
  {
    ghost var chars := BeforeNul(charset[..]);
    var i := 0;
    while charset[i] != Nul
      invariant i <= |chars|
      invariant c !in chars[..i]
      decreases |chars| - i
    {
      if c == charset[i] {
        assert chars[i] == c;
        return true;
      }
      assert chars[..i + 1] == chars[..i] + [chars[i]];
      i := i + 1;
    }
    assert i == |chars| && chars[..i] == chars;
    r := false;
  }

  /** The string after each character of `bad` is replaced by `good`. */
  function Replaced(s: seq<char>, bad: seq<char>, good: char): (r: seq<char>)
    ensures |r| == |s|
    ensures forall k :: 0 <= k < |s| ==> r[k] == if s[k] in bad then good else s[k]
  {
    seq(|s|, k requires 0 <= k < |s| => if s[k] in bad then good else s[k])
  }

  /** With good not among the bad characters, no bad character is left. */
  lemma ReplacedLeavesNoBad(s: seq<char>, bad: seq<char>, good: char)
    requires good !in bad
    ensures forall k :: 0 <= k < |s| ==> Replaced(s, bad, good)[k] !in bad
  {
  }

  /** Replacing twice is replacing once. */
  lemma ReplacedIdempotent(s: seq<char>, bad: seq<char>, good: char)
    ensures Replaced(Replaced(s, bad, good), bad, good) == Replaced(s, bad, good)
  {
  }

  /**
   * FixPathSeparator: a fresh buffer of length + 1 holding the path with
   * each bad separator replaced, then NUL.
   */
  method FixPathSeparator(path: array<char>, length: nat, badPathSeparators: array<char>, goodPathSeparator: char)
    returns (newPath: array<char>)
    requires length <= path.Length && Nul in badPathSeparators[..]
    ensures fresh(newPath) && newPath.Length == length + 1
    ensures newPath[..length] == Replaced(path[..length], BeforeNul(badPathSeparators[..]), goodPathSeparator)
    ensures newPath[length] == Nul
  {
    ghost var bad := BeforeNul(badPathSeparators[..]);
    newPath := new char[length + 1];
    forall k | 0 <= k < length {
      newPath[k] := path[k];
    }
    newPath[length] := Nul;
    assert badPathSeparators[..] == old(badPathSeparators[..]);
    var i := 0;
    while i < length
      invariant i <= length && newPath[length] == Nul
      invariant Nul in badPathSeparators[..] && BeforeNul(badPathSeparators[..]) == bad
      invariant forall k :: 0 <= k < i ==> newPath[k] == if path[k] in bad then goodPathSeparator else path[k]
      invariant forall k :: i <= k < length ==> newPath[k] == path[k]
    {
      var m := CharMatches(newPath[i], badPathSeparators);
      if m {
        newPath[i] := goodPathSeparator;
      }
      i := i + 1;
    }
  }

  /** FixPathSeparatorWin32: '/' becomes '\'. */
  function ToWin32(s: seq<char>): (r: seq<char>)
    ensures forall k :: 0 <= k < |r| ==> r[k] != '/'
  {
    Replaced(s, "/", '\\')
  }

  /** FixPathSeparatorNix: '\' becomes '/'. */
  function ToNix(s: seq<char>): (r: seq<char>)
    ensures forall k :: 0 <= k < |r| ==> r[k] != '\\'
  {
    Replaced(s, "\\", '/')
  }

  /** Both rewrites only exchange separators; going Win32 then Nix is going Nix. */
  lemma NixAfterWin32(s: seq<char>)
    ensures ToNix(ToWin32(s)) == ToNix(s)
  {
  }
}
