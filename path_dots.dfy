/*
 * CleanDotDirs (PathSanitizer.hpp): removes "." and ".." components from a
 * path in place, refusing any '?' after the device prefix.
 *
 * The loop reads the path at index i and writes the cleaned path at index
 * insert <= i of the same buffer.  The model keeps the written part as
 * `out` (so insert == |out|); reads at i and beyond see the original path,
 * and the buffer holds the path's NUL terminator at index |s|.
 */
module PathDots {

  import opened PathText

  /** How CleanDotDirs ends. */
  datatype Outcome =
    | Rejected                   // a '?' was found: false
    | Cleaned(out: seq<char>)    // true, with the cleaned path before the NUL it writes
    | Underflow                  // insert was decremented below 0 (only as written)

  /** Where cleaning starts: after "\\?\" or "\\.\", after "\\" of a UNC path, else at 0. */
  function Start(s: seq<char>): (r: nat)
    ensures r <= |s|
  {
    if |s| >= 2 && s[0] == '\\' && s[1] == '\\' then
      if |s| >= 4 && (s[2] == '?' || s[2] == '.') then 4 else 2
    else 0
  }

  /** The last index at or before k holding '\', or -1. */
  function LastSep(out: seq<char>, k: int): (r: int)
    requires -1 <= k < |out|
    ensures -1 <= r <= k
    ensures r >= 0 ==> out[r] == '\\'
    ensures forall p :: r < p <= k ==> out[p] != '\\'
    decreases k + 1
  {
    if k == -1 || out[k] == '\\' then k else LastSep(out, k - 1)
  }

  /**
   * The ".." step: the written path loses its last component, keeping
   * everything up to and including the '\' before it (nothing if there is
   * none).
   */
  function Back(out: seq<char>): (r: seq<char>)
    requires |out| >= 1
    ensures |r| < |out| && r == out[..|r|]
    ensures r == [] || r[|r| - 1] == '\\'
  {
    out[..LastSep(out, |out| - 2) + 1]
  }

  /**
   * The loop from index i with the written path out.  As written, the
   * "\.\" step copies the character after it without looking at it, and
   * the ".." step on an empty written path drives insert below 0;
   * corrected, the "\.\" step rejects that character when it is a '?' and
   * otherwise copies it as written, and the ".." step stops at the start.
   */
  function Loop(s: seq<char>, i: nat, out: seq<char>, corrected: bool): (r: Outcome)
    requires |out| <= i
    requires corrected ==> |out| <= |s|
    ensures corrected ==> r != Underflow
    ensures corrected && r.Cleaned? ==> |r.out| <= |s|
    decreases if i < |s| then |s| - i else 0
  {
    if i >= |s| then Cleaned(out)
    else if s[i] == '?' then Rejected
    else if s[i] == '.' && i == 0 then Loop(s, i + 1, out, corrected)
    else if s[i] == '.' && s[i - 1] == '\\' && At(s, i + 1) == '\\' then
      if corrected && At(s, i + 2) == '?' then Rejected
      else Loop(s, i + 3, out + [At(s, i + 2)], corrected)
    else if s[i] == '.' && s[i - 1] == '\\' && At(s, i + 1) == '.' && (i + 2 >= |s| || s[i + 2] == '\\') then
      if out == [] then
        if corrected then Loop(s, i + 3, out, corrected) else Underflow
      else Loop(s, i + 3, Back(out), corrected)
    else Loop(s, i + 1, out + [s[i]], corrected)
  }

  /** CleanDotDirs with both corrections. */
  function Clean(s: seq<char>): (r: Outcome)
    ensures r != Underflow
    ensures r.Cleaned? ==> |r.out| <= |s|
  {
    Loop(s, Start(s), s[..Start(s)], true)
  }

  /** CleanDotDirs as written. */
  function CleanAsWritten(s: seq<char>): Outcome
  {
    Loop(s, Start(s), s[..Start(s)], false)
  }

  // One step of the corrected loop per branch, for the loop invariant of CleanDotDirs.

  lemma LeadingDotStep(s: seq<char>, out: seq<char>)
    requires |s| >= 1 && s[0] == '.' && out == []
    ensures Loop(s, 0, out, true) == Loop(s, 1, out, true)
  {
  }

  lemma DotStep(s: seq<char>, i: nat, out: seq<char>)
    requires 0 < i < |s| && |out| <= i && s[i] == '.' && s[i - 1] == '\\' && At(s, i + 1) == '\\'
    ensures i + 2 <= |s|
    ensures Loop(s, i, out, true) ==
      if At(s, i + 2) == '?' then Rejected else Loop(s, i + 3, out + [At(s, i + 2)], true)
  {
  }

  lemma DotDotStep(s: seq<char>, i: nat, out: seq<char>)
    requires 0 < i < |s| && |out| <= i && s[i] == '.' && s[i - 1] == '\\' && At(s, i + 1) == '.'
    requires i + 2 >= |s| || s[i + 2] == '\\'
    ensures Loop(s, i, out, true) == Loop(s, i + 3, if out == [] then out else Back(out), true)
  {
  }

  lemma CopyStep(s: seq<char>, i: nat, out: seq<char>)
    requires i < |s| && |out| <= i && s[i] != '?'
    requires s[i] == '.' ==> i > 0
    requires s[i] == '.' && s[i - 1] == '\\' ==> At(s, i + 1) != '\\'
    requires s[i] == '.' && s[i - 1] == '\\' && At(s, i + 1) == '.' ==> i + 2 < |s| && s[i + 2] != '\\'
    ensures Loop(s, i, out, true) == Loop(s, i + 1, out + [s[i]], true)
  {
  }

  /**
   * The ".." step on the buffer: scans back from the character before the
   * last written one to the previous '\' and returns the new insert index.
   */
  method BackUp(path: array<char>, insert: nat) returns (r: nat)
    requires 1 <= insert <= path.Length
    ensures r == |Back(path[..insert])|
  {
    ghost var out := path[..insert];
    var ins := insert;
    var j: int := insert - 2;
    while j >= 0 && path[j] != '\\'
      invariant -1 <= j && ins == j + 2
      invariant LastSep(out, insert - 2) == LastSep(out, j)
    {
      j := j - 1;
      ins := ins - 1;
    }
    r := ins - 1;
  }

  /**
   * The '.' branch of the loop of CleanDotDirs at index i, reading the
   * buffer only: whether the '.' is dropped ("." at index 0, a "\..\"
   * component), and if so where the loop goes on and the new insert index.
   * Otherwise `next` is the index of the character the loop copies: i
   * itself, or i + 2 after a "\.\" component, which is rejected when it is
   * a '?'.
   */
  method DotDirStep(path: array<char>, length: nat, i: nat, insert: nat, ghost s: seq<char>, ghost out: seq<char>)
    returns (skipped: bool, next: nat, newInsert: nat, ghost newOut: seq<char>)
    requires length < path.Length && |s| == length && i < length && path[i] == s[i] != '?'
    requires forall p :: 0 <= p && i <= p + 1 && p <= length ==> path[p] == At(s, p)
    requires insert == |out| <= i && forall k :: 0 <= k < insert ==> path[k] == out[k]
    ensures skipped ==> i < next <= length + 1 && newInsert <= insert && newOut == out[..newInsert]
    ensures skipped ==> Loop(s, i, out, true) == Loop(s, next, newOut, true)
    ensures !skipped ==> (next == i || next == i + 2) && next <= length
    ensures !skipped ==>
      Loop(s, i, out, true) == if At(s, next) == '?' then Rejected else Loop(s, next + 1, out + [At(s, next)], true)
  {
    skipped, next, newInsert, newOut := false, i, insert, out;
    if path[i] == '.' {
      if i > 0 {
        if path[i - 1] == '\\' {
          if path[i + 1] == '\\' {
            DotStep(s, i, out);
            return false, i + 2, insert, out;
          } else if path[i + 1] == '.' {
            if i + 2 >= length || path[i + 2] == '\\' {
              DotDotStep(s, i, out);
              if insert > 0 {
                assert path[..insert] == out;
                newInsert := BackUp(path, insert);
                newOut := Back(out);
              }
              return true, i + 3, newInsert, newOut;
            }
          }
        }
      } else {
        LeadingDotStep(s, out);
        return true, i + 1, insert, out;
      }
    }
    CopyStep(s, i, out);
  }

  /**
   * CleanDotDirs, corrected, on a buffer holding `length` characters and
   * then NUL: on success the buffer starts with the cleaned path and its
   * NUL terminator.
   */
  method CleanDotDirs(path: array<char>, length: nat) returns (ok: bool)
    requires length < path.Length && path[length] == Nul
    modifies path
    ensures ok == Clean(old(path[..length])).Cleaned?
    ensures ok ==> var out := Clean(old(path[..length])).out;
      path[..|out|] == out && path[|out|] == Nul
  {
    ghost var s := path[..length];
    var insert, i := 0, 0;
    if length >= 2 && path[0] == '\\' && path[1] == '\\' {
      if length >= 4 && (path[2] == '?' || path[2] == '.') {
        i, insert := 4, 4;
      } else {
        i, insert := 2, 2;
      }
    }
    ghost var out := s[..i];
    while i < length
      invariant insert == |out| <= i <= length + 1 && insert <= length
      invariant forall k :: 0 <= k < insert ==> path[k] == out[k]
      invariant forall p :: 0 <= p && i <= p + 1 && p <= length ==> path[p] == At(s, p)
      invariant Loop(s, i, out, true) == Clean(s)
      decreases length + 1 - i
    {
      if path[i] == '?' {
        return false;
      }
      var skipped, next, newInsert;
      ghost var newOut;
      skipped, next, newInsert, newOut := DotDirStep(path, length, i, insert, s, out);
      if skipped {
        i, insert, out := next, newInsert, newOut;
        continue;
      }
      if path[next] == '?' {
        return false;
      }
      path[insert] := path[next];
      insert := insert + 1;
      out := out + [At(s, next)];
      i := next + 1;
    }
    path[insert] := Nul;
    assert path[..insert] == out;
    ok := true;
  }

  // ---------------------------------------------------------------------
  // Properties of the corrected cleaning

  lemma {:induction false} LoopRejects(s: seq<char>, i: nat, out: seq<char>)
    requires |out| <= i && |out| <= |s|
    ensures Loop(s, i, out, true) == Rejected <==> i < |s| && '?' in s[i..]
    decreases if i < |s| then |s| - i else 0
  {
    if i < |s| {
      assert s[i..] == [s[i]] + s[i + 1..];
      if s[i] == '?' {
        assert Loop(s, i, out, true) == Rejected;
      } else if s[i] == '.' && i == 0 {
        LeadingDotStep(s, out);
        LoopRejects(s, i + 1, out);
      } else if s[i] == '.' && s[i - 1] == '\\' && At(s, i + 1) == '\\' {
        DotStep(s, i, out);
        assert s[i + 1..] == [s[i + 1]] + s[i + 2..];
        if i + 2 < |s| {
          assert s[i + 2..] == [s[i + 2]] + s[i + 3..];
          if s[i + 2] != '?' {
            LoopRejects(s, i + 3, out + [s[i + 2]]);
          }
        }
      } else if s[i] == '.' && s[i - 1] == '\\' && At(s, i + 1) == '.' && (i + 2 >= |s| || s[i + 2] == '\\') {
        DotDotStep(s, i, out);
        if i + 2 < |s| {
          assert s[i + 1..] == [s[i + 1], s[i + 2]] + s[i + 3..];
        } else {
          assert s[i + 1..] == [s[i + 1]];
        }
        LoopRejects(s, i + 3, if out == [] then out else Back(out));
      } else {
        CopyStep(s, i, out);
        LoopRejects(s, i + 1, out + [s[i]]);
      }
    }
  }

  /** Cleaning fails exactly when a '?' follows the device prefix. */
  lemma QuestionMarkRejected(s: seq<char>)
    ensures Clean(s) == Rejected <==> '?' in s[Start(s)..]
  {
    LoopRejects(s, Start(s), s[..Start(s)]);
  }

  lemma {:induction false} LoopKeeps(s: seq<char>, i: nat)
    requires i <= |s| && '.' !in s[i..] && '?' !in s[i..]
    ensures Loop(s, i, s[..i], true) == Cleaned(s)
    decreases |s| - i
  {
    if i < |s| {
      assert s[i] in s[i..];
      assert s[i + 1..] == s[i..][1..];
      assert s[..i] + [s[i]] == s[..i + 1];
      LoopKeeps(s, i + 1);
    }
  }

  /** A path with neither '.' nor '?' is left as it is. */
  lemma NoDotsUnchanged(s: seq<char>)
    requires '.' !in s && '?' !in s
    ensures Clean(s) == Cleaned(s)
  {
    assert s[Start(s)..] == s[Start(s)..];
    LoopKeeps(s, Start(s));
  }

  /** A character with no meaning to CleanDotDirs. */
  predicate Plain(x: char) {
    x != '\\' && x != '.' && x != '?'
  }

  /** A ".." component removes the component before it: "a\b\..\c" becomes "a\c". */
  lemma ParentComponentRemoved(a: char, b: char, c: char)
    requires Plain(a) && Plain(b) && Plain(c)
    ensures Clean([a, '\\', b, '\\', '.', '.', '\\', c]) == Cleaned([a, '\\', c])
  {
    var s := [a, '\\', b, '\\', '.', '.', '\\', c];
    assert Start(s) == 0 && s[..0] == [];
    assert LastSep([a, '\\', b, '\\'], 2) == 1;
    calc {
      Loop(s, 0, [], true);
      { CopyStep(s, 0, []); assert [] + [s[0]] == [a]; }
      Loop(s, 1, [a], true);
      { CopyStep(s, 1, [a]); assert [a] + [s[1]] == [a, '\\']; }
      Loop(s, 2, [a, '\\'], true);
      { CopyStep(s, 2, [a, '\\']); assert [a, '\\'] + [s[2]] == [a, '\\', b]; }
      Loop(s, 3, [a, '\\', b], true);
      { CopyStep(s, 3, [a, '\\', b]); assert [a, '\\', b] + [s[3]] == [a, '\\', b, '\\']; }
      Loop(s, 4, [a, '\\', b, '\\'], true);
      { DotDotStep(s, 4, [a, '\\', b, '\\']); }
      Loop(s, 7, [a, '\\'], true);
      { CopyStep(s, 7, [a, '\\']); assert [a, '\\'] + [s[7]] == [a, '\\', c]; }
      Loop(s, 8, [a, '\\', c], true);
    }
  }

  /** A "." component is dropped: "a\.\b" becomes "a\b". */
  lemma CurrentComponentDropped(a: char, b: char)
    requires Plain(a) && Plain(b)
    ensures Clean([a, '\\', '.', '\\', b]) == Cleaned([a, '\\', b])
  {
    var t := [a, '\\', '.', '\\', b];
    assert Start(t) == 0 && t[..0] == [];
    calc {
      Loop(t, 0, [], true);
      { CopyStep(t, 0, []); assert [] + [t[0]] == [a]; }
      Loop(t, 1, [a], true);
      { CopyStep(t, 1, [a]); assert [a] + [t[1]] == [a, '\\']; }
      Loop(t, 2, [a, '\\'], true);
      { DotStep(t, 2, [a, '\\']); assert [a, '\\'] + [At(t, 4)] == [a, '\\', b]; }
      Loop(t, 5, [a, '\\', b], true);
    }
  }

  /** A '.' at index 0 is dropped whatever follows it. */
  lemma LeadingDotDropped()
    ensures Clean(".\\a") == Cleaned("\\a")
    ensures Clean(".x") == Cleaned("x")
  {
    assert Start(".\\a") == 0;
    assert Start(".x") == 0;
  }

  /** As written, the character after "\.\" is copied unchecked: a '?' there passes. */
  lemma QuestionMarkAfterDotPassesAsWritten()
    ensures CleanAsWritten("a\\.\\?") == Cleaned("a\\?")
    ensures Clean("a\\.\\?") == Rejected
  {
    assert Start("a\\.\\?") == 0;
  }

  /**
   * The character after "\.\" is copied without a look at what it starts,
   * as written and corrected alike: a "." component right after one stays.
   */
  lemma DotAfterCurrentCopied()
    ensures Clean("a\\.\\.\\b") == CleanAsWritten("a\\.\\.\\b") == Cleaned("a\\.\\b")
  {
    assert Start("a\\.\\.\\b") == 0;
  }

  /** As written, a ".." with nothing left before it drives insert below 0. */
  lemma ParentOfNothingUnderflowsAsWritten()
    ensures CleanAsWritten("a\\..\\..\\") == Underflow
    ensures Clean("a\\..\\..\\") == Cleaned([])
  {
    assert Start("a\\..\\..\\") == 0;
    assert Back("a\\") == [];
  }
}
