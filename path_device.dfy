/*
 * ContainsWin32Device (PathSanitizer.hpp): scans a path from its end for a
 * Win32 device name (CON, PRN, AUX, NUL, CONIN$, CONOUT$, and COM/LPT with
 * a digit) that starts the path or follows a '\', with optional digits
 * after it, at the end of the path or before a delimiter.
 *
 * The scan keeps one flag: whether the character under the cursor may end
 * a device name.  At such a position it skips digits and tries to match a
 * name backwards; a failed match leaves the cursor on the first character
 * that did not match, and every character looked at sets the flag for the
 * next one by whether it is a delimiter.
 */
module PathDevices {

  import opened PathText

  /** The delimiters that may follow a device name: whitespace, '.' and ':'. */
  predicate IsDelim(c: char)
  {
    c == ' ' || c == '\t' || c == '\r' || c == '\n' || c == '.' || c == ':'
  }

  /** c is the upper-case letter L or its lower-case form; any other L only matches itself. */
  predicate Is(c: char, L: char)
  {
    c == L || ('A' <= L <= 'Z' && c as int == L as int + 32)
  }

  /** The characters a name match steps over. */
  predicate NameChar(c: char)
  {
    IsAlpha(c) || c == '$'
  }

  /** The outcome of one match attempt. */
  datatype Step =
    | Device          // a whole device name, starting the path or after '\'
    | GiveUp          // the scan returns false
    | Resume(k: int)  // no device; the scan goes on with the character at k

  /**
   * Matches `word` backwards, its last letter against s[q]: Device when all
   * of it matches and it starts the path or follows '\', otherwise the
   * index where the scan resumes.
   */
  function Chain(s: seq<char>, q: int, word: seq<char>): (r: Step)
    requires 1 <= |word| && |word| - 1 <= q < |s|
    requires forall k :: 0 <= k < |word| ==> 'A' <= word[k] <= 'Z'
    ensures r != GiveUp
    ensures r.Resume? ==> 0 <= r.k <= q && forall p :: r.k < p <= q ==> IsAlpha(s[p])
    decreases |word|
  {
    if !Is(s[q], word[|word| - 1]) then Resume(q)
    else if |word| == 1 then
      if q == 0 || s[q - 1] == '\\' then Device else Resume(q - 1)
    else
      Chain(s, q - 1, word[..|word| - 1])
  }

  /**
   * The switch on s[i], the character before any digits at a possible
   * device end; `digits` says whether any digit was skipped.  As written
   * the "not enough characters" tests before CONIN$ and CONOUT$ give up on
   * the whole path, and COM and LPT are not matched; corrected, those
   * tests only fail the match, and COM and LPT are matched when a digit
   * follows them.
   */
  function Match(s: seq<char>, i: int, digits: bool, corrected: bool): (r: Step)
    requires 2 <= i < |s|
    requires !corrected ==> i >= 3
    ensures corrected ==> r != GiveUp
    ensures r.Resume? ==> 0 <= r.k <= i && forall p :: r.k < p <= i ==> NameChar(s[p])
  {
    if Is(s[i], 'N') then
      if Is(s[i - 1], 'R') then Chain(s, i, "PRN") else Chain(s, i, "CON")
    else if Is(s[i], 'X') then Chain(s, i, "AUX")
    else if Is(s[i], 'L') then Chain(s, i, "NUL")
    else if corrected && digits && Is(s[i], 'M') then Chain(s, i, "COM")
    else if corrected && digits && Is(s[i], 'T') then Chain(s, i, "LPT")
    else if s[i] == '$' then
      if i < 5 then (if corrected then Resume(i) else GiveUp)
      else if Is(s[i - 1], 'N') then Chain(s, i - 1, "CONIN")
      else if Is(s[i - 1], 'T') then
        if i - 1 < 5 then (if corrected then Resume(i - 1) else GiveUp)
        else Chain(s, i - 1, "CONOUT")
      else Resume(i - 1)
    else Resume(i)
  }

  /** The index of the first non-digit at or before i, or -1. */
  function SkipDigits(s: seq<char>, i: int): (r: int)
    requires -1 <= i < |s|
    ensures -1 <= r <= i
    ensures r >= 0 ==> !IsDigit(s[r])
    ensures forall p :: r < p <= i ==> IsDigit(s[p])
    decreases i + 1
  {
    if i < 0 || !IsDigit(s[i]) then i else SkipDigits(s, i - 1)
  }

  /**
   * The scan from index i down, with possibleEnd the flag for s[i].  As
   * written a possible end before index 3 ends the scan; corrected, before
   * index 2 (a name needs three characters).
   */
  function Scan(s: seq<char>, i: int, possibleEnd: bool, corrected: bool): bool
    requires -1 <= i < |s|
    decreases i + 1
  {
    if i < 0 then false
    else if possibleEnd then
      var j := SkipDigits(s, i);
      if j < (if corrected then 2 else 3) then false
      else match Match(s, j, j < i, corrected)
        case Device => true
        case GiveUp => false
        case Resume(k) => Scan(s, k - 1, IsDelim(s[k]), corrected)
    else Scan(s, i - 1, IsDelim(s[i]), corrected)
  }

  /** ContainsWin32Device with the corrections above. */
  function ContainsDevice(s: seq<char>): bool
  {
    Scan(s, |s| - 1, true, true)
  }

  /** ContainsWin32Device as written. */
  function ContainsDeviceAsWritten(s: seq<char>): bool
  {
    Scan(s, |s| - 1, true, false)
  }

  /** A failed match at a possible end hands the scan on to the character where it stopped. */
  lemma ResumeStep(s: seq<char>, i: int, j: int, k: int)
    requires 2 <= j <= i < |s| && SkipDigits(s, i) == j
    requires Match(s, j, j < i, true) == Resume(k)
    ensures 0 <= k <= j
    ensures Scan(s, i, true, true) == Scan(s, k - 1, IsDelim(s[k]), true)
  {
  }

  /** The digit-skipping loop of ContainsWin32Device: the first non-digit at or before i, or -1. */
  method SkipDigitsBack(path: array<char>, length: nat, i: int) returns (j: int)
    requires length <= path.Length && -1 <= i < length
    ensures j == SkipDigits(path[..length], i)
  {
    j := i;
    while j >= 0 && IsDigit(path[j])
      invariant -1 <= j <= i
      invariant SkipDigits(path[..length], j) == SkipDigits(path[..length], i)
      decreases j + 1
    {
      j := j - 1;
    }
  }

  /** ContainsWin32Device: the scan from the end, as the corrected ContainsDevice. */
  method ContainsWin32Device(path: array<char>, length: nat) returns (found: bool)
    requires length <= path.Length
    ensures found == ContainsDevice(path[..length])
  {
    ghost var s := path[..length];
    var possibleEnd := true;
    var i: int := length - 1;
    while i >= 0
      invariant -1 <= i < length
      invariant Scan(s, i, possibleEnd, true) == ContainsDevice(s)
      decreases i + 1
    {
      if possibleEnd {
        var start := i;
        i := SkipDigitsBack(path, length, i);
        if i < 2 {
          return false;
        }
        var step := Match(path[..length], i, i < start, true);
        match step {
          case Device =>
            FoundAt(s, start, i);
            return true;
          case Resume(k) =>
            ResumeStep(s, start, i, k);
            i := k;
            possibleEnd := IsDelim(path[i]);
            i := i - 1;
            continue;
        }
      }
      assert Scan(s, i, false, true) == Scan(s, i - 1, IsDelim(s[i]), true);
      possibleEnd := IsDelim(path[i]);
      i := i - 1;
    }
    return false;
  }

  // ---------------------------------------------------------------------
  // Properties of the scan

  /** The device names the corrected scan knows. */
  const DeviceNames: seq<seq<char>> := ["CON", "PRN", "AUX", "NUL", "COM", "LPT", "CONIN$", "CONOUT$"]

  /** A word spelt from c, after '\' or at the start, is matched from its last letter. */
  lemma {:induction false} ChainMatches(s: seq<char>, c: int, word: seq<char>)
    requires 1 <= |word| && 0 <= c && c + |word| <= |s|
    requires forall k :: 0 <= k < |word| ==> 'A' <= word[k] <= 'Z'
    requires forall k :: 0 <= k < |word| ==> Is(s[c + k], word[k])
    requires c == 0 || s[c - 1] == '\\'
    ensures Chain(s, c + |word| - 1, word) == Device
    decreases |word|
  {
    assert Is(s[c + |word| - 1], word[|word| - 1]);
    if |word| > 1 {
      var front := word[..|word| - 1];
      assert forall k :: 0 <= k < |front| ==> front[k] == word[k];
      ChainMatches(s, c, front);
    }
  }

  /** One of the device names the corrected scan knows. */
  predicate IsDeviceName(name: seq<char>)
  {
    name in DeviceNames
  }

  /** COM and LPT are device names only with a digit after them (COM1-COM9, LPT1-LPT9). */
  predicate NeedsDigit(name: seq<char>)
  {
    name == "COM" || name == "LPT"
  }

  /**
   * CON, PRN, AUX and NUL spelt from c, after '\' or at the start, are
   * matched; COM and LPT are matched exactly when digits were skipped, and
   * otherwise the scan resumes at their last letter.
   */
  lemma ShortNameMatches(s: seq<char>, c: int, name: seq<char>, digits: bool)
    requires name in DeviceNames[..6]
    requires 0 <= c && c + 3 <= |s|
    requires forall k :: 0 <= k < 3 ==> Is(s[c + k], name[k])
    requires c == 0 || s[c - 1] == '\\'
    ensures Match(s, c + 2, digits, true) == if digits || !NeedsDigit(name) then Device else Resume(c + 2)
  {
    ChainMatches(s, c, name);
    assert Is(s[c + 1], name[1]) && Is(s[c + 2], name[2]);
  }

  /** CONIN$ spelt from c, after '\' or at the start, is matched. */
  lemma ConinMatches(s: seq<char>, c: int, digits: bool)
    requires 0 <= c && c + 6 <= |s|
    requires forall k :: 0 <= k < 6 ==> Is(s[c + k], "CONIN$"[k])
    requires c == 0 || s[c - 1] == '\\'
    ensures Match(s, c + 5, digits, true) == Device
  {
    assert forall k :: 0 <= k < 5 ==> "CONIN"[k] == "CONIN$"[k];
    ChainMatches(s, c, "CONIN");
    assert Is(s[c + 5], "CONIN$"[5]) && Is(s[c + 4], "CONIN$"[4]);
  }

  /** CONOUT$ spelt from c, after '\' or at the start, is matched. */
  lemma ConoutMatches(s: seq<char>, c: int, digits: bool)
    requires 0 <= c && c + 7 <= |s|
    requires forall k :: 0 <= k < 7 ==> Is(s[c + k], "CONOUT$"[k])
    requires c == 0 || s[c - 1] == '\\'
    ensures Match(s, c + 6, digits, true) == Device
  {
    assert forall k :: 0 <= k < 6 ==> "CONOUT"[k] == "CONOUT$"[k];
    ChainMatches(s, c, "CONOUT");
    assert Is(s[c + 6], "CONOUT$"[6]) && Is(s[c + 5], "CONOUT$"[5]);
  }

  /** Between the end of a match and a delimiter, the scan only moves left. */
  lemma {:induction false} QuietRun(s: seq<char>, lo: int, i: int, corrected: bool)
    requires -1 <= lo <= i < |s|
    requires forall p :: lo < p <= i ==> !IsDelim(s[p])
    ensures Scan(s, i, false, corrected) == Scan(s, lo, false, corrected)
    decreases i
  {
    if i > lo {
      QuietRun(s, lo, i - 1, corrected);
    }
  }

  /** Skipping digits from d - 1 down stops at e - 1 when s[e..d] are digits and s[e - 1] is not. */
  lemma {:induction false} SkipDigitsOver(s: seq<char>, e: int, d: int)
    requires 1 <= e <= d <= |s|
    requires forall p :: e <= p < d ==> IsDigit(s[p])
    requires !IsDigit(s[e - 1])
    ensures SkipDigits(s, d - 1) == e - 1
    decreases d
  {
    if d > e {
      SkipDigitsOver(s, e, d - 1);
    }
  }

  /**
   * Once the scan passes a delimiter at d it is at a possible device end
   * at d - 1; no match from further right steps over a delimiter, so a
   * device ending at d - 1 is found from anywhere right of it.
   */
  lemma {:induction false} ReachDelimiter(s: seq<char>, d: int, i: int, e: bool)
    requires 2 <= d <= i < |s| && IsDelim(s[d])
    requires Scan(s, d - 1, true, true)
    ensures Scan(s, i, e, true)
    decreases i
  {
    if e {
      var j := SkipDigits(s, i);
      var atD := s[d];
      assert j < d ==> IsDigit(atD);
      match Match(s, j, j < i, true)
      case Device =>
      case Resume(k) =>
        assert k < d ==> NameChar(atD);
        if k > d {
          ReachDelimiter(s, d, k - 1, IsDelim(s[k]));
        }
    } else if i > d {
      ReachDelimiter(s, d, i - 1, IsDelim(s[i]));
    }
  }

  /**
   * A device name, in any case, spelt from c at the start of the path or
   * after '\', then digits up to d (at least one after COM and LPT), then
   * the end of the path or a delimiter at d.
   */
  predicate DeviceEndsAt(s: seq<char>, c: int, name: seq<char>, d: int)
  {
    IsDeviceName(name) && 0 <= c && c + |name| <= d <= |s| && (c == 0 || s[c - 1] == '\\') &&
    (forall k :: 0 <= k < |name| ==> Is(s[c + k], name[k])) &&
    (forall q :: c + |name| <= q < d ==> IsDigit(s[q])) &&
    (NeedsDigit(name) ==> c + |name| < d) &&
    (d == |s| || IsDelim(s[d]))
  }

  /** A device name spelt from c, then digits up to d, is found by the scan from d - 1. */
  lemma NameThenDigitsFound(s: seq<char>, c: int, name: seq<char>, d: int)
    requires DeviceEndsAt(s, c, name, d)
    ensures Scan(s, d - 1, true, true)
  {
    var e := c + |name|;
    assert Is(s[e - 1], name[|name| - 1]);
    assert !IsDigit(s[e - 1]);
    SkipDigitsOver(s, e, d);
    NameMatches(s, c, name, e < d);
    FoundAt(s, d - 1, e - 1);
  }

  /**
   * Every device name spelt from c, after '\' or at the start, is matched
   * at its last character, COM and LPT when digits were skipped.
   */
  lemma NameMatches(s: seq<char>, c: int, name: seq<char>, digits: bool)
    requires name in DeviceNames && (NeedsDigit(name) ==> digits)
    requires 0 <= c && c + |name| <= |s|
    requires forall k :: 0 <= k < |name| ==> Is(s[c + k], name[k])
    requires c == 0 || s[c - 1] == '\\'
    ensures Match(s, c + |name| - 1, digits, true) == Device
  {
    if |name| == 3 {
      ShortNameMatches(s, c, name, digits);
    } else if name == "CONIN$" {
      ConinMatches(s, c, digits);
    } else {
      ConoutMatches(s, c, digits);
    }
  }

  /** The scan at a possible end finds the device its digit skip lands on. */
  lemma FoundAt(s: seq<char>, i: int, j: int)
    requires 2 <= j <= i < |s| && SkipDigits(s, i) == j
    requires Match(s, j, j < i, true) == Device
    ensures Scan(s, i, true, true)
  {
  }

  /** A device found from d - 1, before a delimiter at d, is found from the end. */
  lemma FoundPastDelimiter(s: seq<char>, d: int)
    requires 2 <= d < |s| && Scan(s, d - 1, true, true) && IsDelim(s[d])
    ensures ContainsDevice(s)
  {
    ReachDelimiter(s, d, |s| - 1, true);
  }

  /** A device found from d - 1 is found from the end when d is the end or a delimiter. */
  lemma FoundFromEnd(s: seq<char>, d: int)
    requires 2 <= d <= |s| && Scan(s, d - 1, true, true)
    requires d == |s| || IsDelim(s[d])
    ensures ContainsDevice(s)
  {
    if d < |s| {
      FoundPastDelimiter(s, d);
    }
  }

  /**
   * A device name at the start of the path or after '\', in any case,
   * followed by digits (at least one after COM and LPT) and then the end of
   * the path or a delimiter, is found.
   */
  lemma DeviceAtEndFound(s: seq<char>, c: int, name: seq<char>, d: int)
    requires DeviceEndsAt(s, c, name, d)
    ensures ContainsDevice(s)
  {
    NameThenDigitsFound(s, c, name, d);
    FoundFromEnd(s, d);
  }

  /** A chain that matches from c + |word| - 1 spells its word from c, at the start of the path or after '\'. */
  lemma {:induction false} ChainDevice(s: seq<char>, c: int, word: seq<char>)
    requires 1 <= |word| && 0 <= c && c + |word| <= |s|
    requires forall k :: 0 <= k < |word| ==> 'A' <= word[k] <= 'Z'
    requires Chain(s, c + |word| - 1, word) == Device
    ensures c == 0 || s[c - 1] == '\\'
    ensures forall k :: 0 <= k < |word| ==> Is(s[c + k], word[k])
    decreases |word|
  {
    if |word| > 1 {
      var front := word[..|word| - 1];
      ChainDevice(s, c, front);
      assert forall k :: 0 <= k < |front| ==> front[k] == word[k];
    }
  }

  /** A name spelt from c, then digits up to d, then the end or a delimiter, is a device name ending at d. */
  lemma SpeltEndsAt(s: seq<char>, c: int, name: seq<char>, d: int)
    requires IsDeviceName(name) && 0 <= c && c + |name| <= d <= |s| && (c == 0 || s[c - 1] == '\\')
    requires forall k :: 0 <= k < |name| ==> Is(s[c + k], name[k])
    requires forall q :: c + |name| <= q < d ==> IsDigit(s[q])
    requires NeedsDigit(name) ==> c + |name| < d
    requires d == |s| || IsDelim(s[d])
    ensures DeviceEndsAt(s, c, name, d)
  {
  }

  /** The three-letter names are device names of upper-case letters. */
  lemma ShortNames(name: seq<char>)
    requires name in ["CON", "PRN", "AUX", "NUL", "COM", "LPT"]
    ensures IsDeviceName(name) && |name| == 3
    ensures forall k :: 0 <= k < 3 ==> 'A' <= name[k] <= 'Z'
  {
    assert DeviceNames[..6] == ["CON", "PRN", "AUX", "NUL", "COM", "LPT"];
  }

  /** A matching chain of CON, PRN, AUX, NUL, COM or LPT at j is a device name ending at d. */
  lemma ShortDeviceEnds(s: seq<char>, j: int, d: int, name: seq<char>)
    requires name in ["CON", "PRN", "AUX", "NUL", "COM", "LPT"] && 2 <= j < d <= |s|
    requires forall q :: j < q < d ==> IsDigit(s[q])
    requires d == |s| || IsDelim(s[d])
    requires NeedsDigit(name) ==> j + 1 < d
    requires Chain(s, j, name) == Device
    ensures DeviceEndsAt(s, j - 2, name, d)
  {
    ShortNames(name);
    ChainDevice(s, j - 2, name);
    SpeltEndsAt(s, j - 2, name, d);
  }

  /** A word spelt from c followed by a '$' spells the word with the '$'. */
  lemma SpeltWithDollar(s: seq<char>, c: int, word: seq<char>)
    requires 0 <= c && c + |word| < |s| && s[c + |word|] == '$'
    requires forall k :: 0 <= k < |word| ==> Is(s[c + k], word[k])
    ensures forall k :: 0 <= k < |word| + 1 ==> Is(s[c + k], (word + "$")[k])
  {
  }

  /** CONIN$ and CONOUT$ are device names, CONIN and CONOUT of upper-case letters. */
  lemma DollarNames()
    ensures IsDeviceName("CONIN$") && "CONIN$" == "CONIN" + "$"
    ensures IsDeviceName("CONOUT$") && "CONOUT$" == "CONOUT" + "$"
    ensures forall k :: 0 <= k < 5 ==> 'A' <= "CONIN"[k] <= 'Z'
    ensures forall k :: 0 <= k < 6 ==> 'A' <= "CONOUT"[k] <= 'Z'
  {
  }

  /**
   * A matching chain of CONIN or CONOUT (word) from c, then a '$', is the
   * device name CONIN$ or CONOUT$ (name) ending at d.
   */
  lemma DollarDeviceEnds(s: seq<char>, c: int, d: int, word: seq<char>, name: seq<char>)
    requires IsDeviceName(name) && name == word + "$"
    requires 5 <= |word| && 0 <= c && c + |name| <= d <= |s| && s[c + |word|] == '$'
    requires forall k :: 0 <= k < |word| ==> 'A' <= word[k] <= 'Z'
    requires forall q :: c + |name| <= q < d ==> IsDigit(s[q])
    requires d == |s| || IsDelim(s[d])
    requires Chain(s, c + |word| - 1, word) == Device
    ensures DeviceEndsAt(s, c, name, d)
  {
    ChainDevice(s, c, word);
    SpeltWithDollar(s, c, word);
    SpeltEndsAt(s, c, name, d);
  }

  /** A match at j, with digits from j + 1 up to the end or a delimiter at d, is a device name ending there. */
  lemma MatchDevice(s: seq<char>, j: int, d: int)
    requires 2 <= j < d <= |s|
    requires forall q :: j < q < d ==> IsDigit(s[q])
    requires d == |s| || IsDelim(s[d])
    requires Match(s, j, j + 1 < d, true) == Device
    ensures exists c, name :: DeviceEndsAt(s, c, name, d)
  {
    var digits := j + 1 < d;
    if Is(s[j], 'N') {
      ShortDeviceEnds(s, j, d, if Is(s[j - 1], 'R') then "PRN" else "CON");
    } else if Is(s[j], 'X') {
      ShortDeviceEnds(s, j, d, "AUX");
    } else if Is(s[j], 'L') {
      ShortDeviceEnds(s, j, d, "NUL");
    } else if digits && Is(s[j], 'M') {
      ShortDeviceEnds(s, j, d, "COM");
    } else if digits && Is(s[j], 'T') {
      ShortDeviceEnds(s, j, d, "LPT");
    } else {
      DollarNames();
      if Is(s[j - 1], 'N') {
        DollarDeviceEnds(s, j - 5, d, "CONIN", "CONIN$");
      } else {
        DollarDeviceEnds(s, j - 6, d, "CONOUT", "CONOUT$");
      }
    }
  }

  /** A scan that finds a device has passed the end of a device name. */
  lemma {:induction false} ScanFound(s: seq<char>, i: int, e: bool)
    requires -1 <= i < |s|
    requires e ==> i + 1 == |s| || IsDelim(s[i + 1])
    requires Scan(s, i, e, true)
    ensures exists c, name, d :: DeviceEndsAt(s, c, name, d)
    decreases i + 1
  {
    if e {
      var j := SkipDigits(s, i);
      match Match(s, j, j < i, true)
      case Device =>
        MatchDevice(s, j, i + 1);
      case Resume(k) =>
        ScanFound(s, k - 1, IsDelim(s[k]));
    } else {
      ScanFound(s, i - 1, IsDelim(s[i]));
    }
  }

  /**
   * The corrected scan finds a device exactly when a device name (COM and
   * LPT with a digit) ends at the end of the path or before a delimiter.
   */
  lemma DeviceIff(s: seq<char>)
    ensures ContainsDevice(s) <==> exists c, name, d :: DeviceEndsAt(s, c, name, d)
  {
    if ContainsDevice(s) {
      ScanFound(s, |s| - 1, true);
    } else if exists c, name, d :: DeviceEndsAt(s, c, name, d) {
      var c, name, d :| DeviceEndsAt(s, c, name, d);
      DeviceAtEndFound(s, c, name, d);
    }
  }

  /** COM and LPT without a digit are no devices: "C:\COM" and "C:\LPT" hold none. */
  lemma BareComLptNotDevices()
    ensures !ContainsDevice("C:\\COM") && !ContainsDevice("C:\\LPT")
  {
    var a, b := "C:\\COM", "C:\\LPT";
    assert Match(a, 5, false, true) == Resume(5);
    QuietRun(a, 1, 4, true);
    assert Match(b, 5, false, true) == Resume(5);
    QuietRun(b, 1, 4, true);
  }

  /** Nor does a delimiter make COM a device: "C:\COM.txt" holds none. */
  lemma BareComBeforeDelimiter()
    ensures !ContainsDevice("C:\\COM.txt")
  {
    var x := "C:\\COM.txt";
    assert Match(x, 9, false, true) == Resume(9);
    QuietRun(x, 6, 8, true);
    assert Match(x, 5, false, true) == Resume(5);
    QuietRun(x, 1, 4, true);
  }

  /** "C:\COM1" followed by nothing or by a delimiter and anything holds a device. */
  lemma ComOneThen(tail: seq<char>)
    requires tail == [] || IsDelim(tail[0])
    ensures ContainsDevice("C:\\COM1" + tail)
  {
    var s := "C:\\COM1" + tail;
    assert s[2] == '\\' && s[3] == 'C' && s[4] == 'O' && s[5] == 'M' && s[6] == '1';
    assert forall k :: 0 <= k < 3 ==> Is(s[3 + k], "COM"[k]);
    assert tail != [] ==> s[7] == tail[0];
    assert DeviceEndsAt(s, 3, "COM", 7);
    DeviceAtEndFound(s, 3, "COM", 7);
  }

  /**
   * The delimiter examples: ':' or '.' after the digits, with or without
   * spaces, and a space alone.
   */
  lemma DelimiterExamples()
    ensures ContainsDevice("C:\\COM1")
    ensures ContainsDevice("C:\\COM1:a")
    ensures ContainsDevice("C:\\COM1  :  a")
    ensures ContainsDevice("C:\\COM1.  a")
    ensures ContainsDevice("C:\\COM1 a")
  {
    ComOneThen("");
    assert "C:\\COM1" + "" == "C:\\COM1";
    ComOneThen(":a");
    assert "C:\\COM1" + ":a" == "C:\\COM1:a";
    ComOneThen("  :  a");
    assert "C:\\COM1" + "  :  a" == "C:\\COM1  :  a";
    ComOneThen(".  a");
    assert "C:\\COM1" + ".  a" == "C:\\COM1.  a";
    ComOneThen(" a");
    assert "C:\\COM1" + " a" == "C:\\COM1 a";
  }

  /** A letter or a '\' right after the digits is no device end. */
  lemma NonDelimiterExamples()
    ensures !ContainsDevice("C:\\COM1a")
    ensures !ContainsDevice("C:\\COM1\\")
  {
    NoDeviceAfter("C:\\COM1a");
    NoDeviceAfter("C:\\COM1\\");
  }

  /** The characters a match can start from. */
  predicate StartsName(c: char)
  {
    Is(c, 'N') || Is(c, 'X') || Is(c, 'L') || Is(c, 'M') || Is(c, 'T') || c == '$'
  }

  /**
   * A path "X:" followed by characters none of which is a delimiter, ending
   * in a character that is no digit and cannot end a name, holds no device.
   */
  lemma NoDeviceAfter(s: seq<char>)
    requires |s| >= 4 && s[1] == ':'
    requires forall p :: 2 <= p < |s| ==> !IsDelim(s[p])
    requires !IsDigit(s[|s| - 1]) && !StartsName(s[|s| - 1])
    ensures !ContainsDevice(s) && !ContainsDeviceAsWritten(s)
  {
    var i := |s| - 1;
    assert Match(s, i, false, true) == Resume(i) && Match(s, i, false, false) == Resume(i);
    QuietRun(s, 1, i - 1, true);
    QuietRun(s, 1, i - 1, false);
  }

  /**
   * As written, a possible device end before index 3 ends the scan with
   * false: "NUL:" starts with the device NUL and is not found.
   */
  lemma ShortEndMissedAsWritten()
    ensures !ContainsDeviceAsWritten("NUL:") && ContainsDevice("NUL:")
  {
    var a := "NUL:";
    assert Match(a, 3, false, false) == Resume(3) && Match(a, 3, false, true) == Resume(3);
    ChainMatches(a, 0, "NUL");
    assert Match(a, 2, false, true) == Device;
  }

  /**
   * As written, a '$' before index 5 ends the scan with false: "NUL.$"
   * starts with the device NUL and is not found.
   */
  lemma ShortDollarMissedAsWritten()
    ensures !ContainsDeviceAsWritten("NUL.$") && ContainsDevice("NUL.$")
  {
    var b := "NUL.$";
    assert Match(b, 4, false, false) == GiveUp && Match(b, 4, false, true) == Resume(4);
    ChainMatches(b, 0, "NUL");
    assert Match(b, 2, false, true) == Device;
    assert Scan(b, 3, false, true) == Scan(b, 2, true, true);
  }

  /** As written, COM is never matched: "C:\COM1" is not found. */
  lemma ComMissedAsWritten()
    ensures !ContainsDeviceAsWritten("C:\\COM1") && ContainsDevice("C:\\COM1")
  {
    var a := "C:\\COM1";
    ComOneThen("");
    assert a + "" == a;
    assert SkipDigits(a, 6) == 5;
    assert Match(a, 5, true, false) == Resume(5);
    QuietRun(a, 1, 4, false);
  }

  /** As written, LPT is never matched either: "C:\LPT1" is not found. */
  lemma LptMissedAsWritten()
    ensures !ContainsDeviceAsWritten("C:\\LPT1") && ContainsDevice("C:\\LPT1")
  {
    var a := "C:\\LPT1";
    assert forall k :: 0 <= k < 3 ==> Is(a[3 + k], "LPT"[k]);
    assert DeviceEndsAt(a, 3, "LPT", 7);
    DeviceAtEndFound(a, 3, "LPT", 7);
    assert SkipDigits(a, 6) == 5;
    assert Match(a, 5, true, false) == Resume(5);
    QuietRun(a, 1, 4, false);
  }
}
