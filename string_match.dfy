/** The StringMatch object of string_match.cpp (a pattern, a text and the
    KMP failure table filled once by the constructor), its two
    "first occurrence at or after position" procedures, the MatchFunc
    dispatch, and the counting loop of test_match.  "Not found" (the
    SIZE_MAX sentinel of the source) is None. */
module StringMatching {
  import opened Occurrences
  import opened Borders

  /** The fixed size of the lps[] field. */
  const LpsCapacity: nat := 1024

  /** strlen: the index of the first NUL byte of a C string. */
  function StrLen(s: seq<bv8>): (n: nat)
    requires 0 in s
    ensures n < |s| && s[n] == 0
    ensures forall k :: 0 <= k < n ==> s[k] != 0
  {
    if s[0] == 0 then 0 else 1 + StrLen(s[1..])
  }

  class StringMatch {
    const text: seq<bv8>
    const pattern: seq<bv8>
    /** lps[q] is the length of the longest proper border of pattern[..q + 1]. */
    const lps: array<int>

    ghost predicate Valid()
      reads this, lps
    {
      && lps.Length == LpsCapacity
      && |pattern| <= LpsCapacity
      && forall q :: 0 <= q < |pattern| ==> IsLongestBorder(pattern, q + 1, lps[q])
    }

    /** StringMatch(s_match, s_text, text_length): the text is the first
        text_length bytes of the buffer. */
    constructor WithLength(sMatch: seq<bv8>, sText: seq<bv8>, textLength: nat)
      requires |sMatch| <= LpsCapacity
      requires textLength <= |sText|
      ensures pattern == sMatch && text == sText[..textLength]
      ensures Valid() && fresh(lps)
    {
      text := sText[..textLength];
      pattern := sMatch;
      lps := new int[LpsCapacity];
      new;
      ComputeLpsArray(pattern, lps);
    }

    /** StringMatch(s_match, s_text): the text is the NUL-terminated string
        s_text, without its terminator. */
    constructor FromCString(sMatch: seq<bv8>, sText: seq<bv8>)
      requires |sMatch| <= LpsCapacity
      requires 0 in sText
      ensures pattern == sMatch && text == sText[..StrLen(sText)]
      ensures Valid() && fresh(lps)
    {
      text := sText[..StrLen(sText)];
      pattern := sMatch;
      lps := new int[LpsCapacity];
      new;
      ComputeLpsArray(pattern, lps);
    }

    /** compute_lps_array: fills lps[0..|pat|) with the longest proper border
        of every prefix of pat, and writes lps[0] even when pat is empty. */
    static method ComputeLpsArray(pat: seq<bv8>, lps: array<int>)
      requires 1 <= lps.Length && |pat| <= lps.Length
      modifies lps
      ensures lps[0] == 0
      ensures forall q :: 0 <= q < |pat| ==> IsLongestBorder(pat, q + 1, lps[q])
      ensures forall q :: 1 <= q < lps.Length && |pat| <= q ==> lps[q] == old(lps[q])
    {
      var m := |pat|;
      var len := 0;
      lps[0] := 0;
      var i := 1;
      while i < m
        invariant 1 <= i && (i <= m || i == 1)
        invariant 0 <= len < i
        invariant lps[0] == 0
        invariant forall q :: 0 <= q < i && q < m ==> IsLongestBorder(pat, q + 1, lps[q])
        invariant forall q :: 1 <= q < lps.Length && m <= q ==> lps[q] == old(lps[q])
        invariant i <= m ==> IsBorder(pat, i, len)
        invariant i < m ==> NoBorderAbove(pat, i + 1, len + 1)
        decreases m - i, len
      {
        if pat[i] == pat[len] {
          LpsExtendStep(pat, i, len);
          len := len + 1;
          lps[i] := len;
          i := i + 1;
        } else {
          if len != 0 {
            LpsFallbackStep(pat, i, len, lps[len - 1]);
            len := lps[len - 1];
          } else {
            LpsResetStep(pat, i);
            lps[i] := 0;
            i := i + 1;
          }
        }
      }
    }

    /** simple_string_match: tries every start i >= position in turn and
        compares the pattern byte by byte, abandoning a start at its first
        mismatch or at the end of the text. */
    method SimpleStringMatch(position: nat) returns (r: Option<nat>)
      requires |pattern| >= 1
      ensures r == FirstFrom(text, pattern, position)
    {
      var n := |text|;
      var m := |pattern|;
      var i := position;
      while i < n
        invariant position <= i
        invariant NoOccurrenceIn(text, pattern, position, i)
      {
        var j := 0;
        var firstHit := i;
        var tmpI := i;
        // The source's j++ also runs on the failing comparison; j is then dead.
        while tmpI < n && pattern[j] == text[tmpI]
          invariant i <= tmpI <= n
          invariant j == tmpI - i && j < m
          invariant text[i..tmpI] == pattern[..j]
          decreases n - tmpI
        {
          assert text[i..tmpI + 1] == text[i..tmpI] + [text[tmpI]];
          assert pattern[..j + 1] == pattern[..j] + [pattern[j]];
          j := j + 1;
          if j == m {
            assert OccursAt(text, pattern, firstHit);
            FirstFromSkip(text, pattern, position, firstHit);
            return Some(firstHit);
          }
          tmpI := tmpI + 1;
        }
        if i + m <= n {
          assert text[i..i + m][j] == text[tmpI];
        }
        i := i + 1;
      }
      FirstFromSkip(text, pattern, position, i);
      return None;
    }

    /** kmp_match: Knuth-Morris-Pratt over text[position..], starting with no
        bytes matched; stops at the first complete match. */
    method KmpMatch(position: nat) returns (r: Option<nat>)
      requires Valid() && |pattern| >= 1
      requires position <= |text|
      ensures r == FirstFrom(text, pattern, position)
    {
      var m := |pattern|;
      var n := |text| - position;
      var found: Option<nat> := None;
      var i := 0;
      var j := 0;
      while i < n
        invariant 0 <= j <= i <= n && j < m
        invariant KmpState(text, pattern, position, i, j)
        invariant found == None
        decreases n - i, j
      {
        if pattern[j] == text[position + i] {
          KmpMatchByte(text, pattern, position, i, j);
          j := j + 1;
          i := i + 1;
        }
        if j == m {
          KmpFound(text, pattern, position, i);
          found := Some(i - j);
          j := lps[j - 1];
          break;
        } else if i < n && pattern[j] != text[position + i] {
          if j != 0 {
            KmpFallback(text, pattern, position, i, j, lps[j - 1]);
            j := lps[j - 1];
          } else {
            KmpAdvance(text, pattern, position, i);
            i := i + 1;
          }
        }
      }
      if found.Some? {
        return Some(found.value + position);
      }
      KmpExhausted(text, pattern, position, i, j);
      return found;
    }
  }

  /** The MatchFunc function pointers fn_simpe_match and fn_kmp_match. */
  datatype MatchFunc = FnSimpleMatch | FnKmpMatch

  /** Calls the matcher that f stands for. */
  method CallMatchFunc(f: MatchFunc, matcher: StringMatch, loc: nat) returns (r: Option<nat>)
    requires matcher.Valid() && |matcher.pattern| >= 1
    requires f.FnKmpMatch? ==> loc <= |matcher.text|
    ensures r == FirstFrom(matcher.text, matcher.pattern, loc)
  {
    match f
    case FnSimpleMatch => r := matcher.SimpleStringMatch(loc);
    case FnKmpMatch => r := matcher.KmpMatch(loc);
  }

  /** The file contents handed to test_match: a buffer and its size. */
  datatype FileContents = FileContents(buffer: seq<bv8>, size: nat)

  /** test_match without its timer and printf: counts the occurrences of the
      pattern in the first f.size bytes of f.buffer by resuming one byte after
      each match.  `visited` lists the matches in the order they are found. */
  method TestMatch(pattern: seq<bv8>, f: FileContents, matchFunc: MatchFunc)
    returns (matchCount: nat, ghost visited: seq<nat>)
    requires 1 <= |pattern| <= LpsCapacity
    requires f.size <= |f.buffer|
    ensures visited == OccurrencesFrom(f.buffer[..f.size], pattern, 0)
    ensures matchCount == |OccurrenceSet(f.buffer[..f.size], pattern)|
  {
    matchCount := 0;
    var matcher := new StringMatch.WithLength(pattern, f.buffer, f.size);
    ghost var text := matcher.text;
    ghost var resume: nat := 0;
    visited := [];
    var loc := CallMatchFunc(matchFunc, matcher, 0);
    while loc.Some?
      invariant matcher.Valid() && matcher.text == text && matcher.pattern == pattern
      invariant resume <= |text|
      invariant loc == FirstFrom(text, pattern, resume)
      invariant visited + OccurrencesFrom(text, pattern, resume) == OccurrencesFrom(text, pattern, 0)
      invariant matchCount == |visited|
      decreases |text| - resume
    {
      FirstFromIsLeast(text, pattern, resume);
      OccurrencesAfterFirst(text, pattern, resume);
      visited := visited + [loc.value];
      matchCount := matchCount + 1;
      resume := loc.value + 1;
      loc := CallMatchFunc(matchFunc, matcher, loc.value + 1);
    }
    OccurrencesAfterFirst(text, pattern, resume);
    OccurrenceCount(text, pattern);
  }

  /** The two test_match runs of the driver: the naive matcher and KMP find
      the same number of occurrences on the same input. */
  method CompareMatchers(pattern: seq<bv8>, f: FileContents) returns (simpleCount: nat, kmpCount: nat)
    requires 1 <= |pattern| <= LpsCapacity
    requires f.size <= |f.buffer|
    ensures simpleCount == kmpCount == |OccurrenceSet(f.buffer[..f.size], pattern)|
  {
    ghost var simpleVisited, kmpVisited;
    simpleCount, simpleVisited := TestMatch(pattern, f, FnSimpleMatch);
    kmpCount, kmpVisited := TestMatch(pattern, f, FnKmpMatch);
  }
}
