/** The meaning of the KMP failure table: lps[q - 1] is the length of the
    longest proper prefix of pat[..q] that is also a suffix of it (its longest
    proper border).  The step lemmas here are the proof obligations of
    compute_lps_array and kmp_match. */
module Borders {
  import opened Occurrences

  /** pat[..k] is a proper prefix of pat[..q] that is also a suffix of it. */
  predicate IsBorder(pat: seq<bv8>, q: nat, k: nat)
  {
    k < q <= |pat| && forall t :: 0 <= t < k ==> pat[t] == pat[q - k + t]
  }

  /** No proper border of pat[..q] is longer than v. */
  predicate NoBorderAbove(pat: seq<bv8>, q: nat, v: nat)
  {
    forall k :: v < k < q ==> !IsBorder(pat, q, k)
  }

  /** v is the length of the longest proper border of pat[..q]: the value
      lps[q - 1] must hold. */
  predicate IsLongestBorder(pat: seq<bv8>, q: nat, v: int)
  {
    0 <= v && IsBorder(pat, q, v) && NoBorderAbove(pat, q, v)
  }

  /** The longest proper border of pat[..q] of length at most k, found by
      trying k, k - 1, ..., 0 (the empty border always exists). */
  function LongestBorderBelow(pat: seq<bv8>, q: nat, k: nat): (r: nat)
    requires k < q <= |pat|
    ensures r <= k && IsBorder(pat, q, r)
    ensures forall k' :: r < k' <= k ==> !IsBorder(pat, q, k')
    decreases k
  {
    if k == 0 || IsBorder(pat, q, k) then k else LongestBorderBelow(pat, q, k - 1)
  }

  /** The length of the longest proper border of pat[..q]. */
  function LongestBorder(pat: seq<bv8>, q: nat): (r: nat)
    requires 1 <= q <= |pat|
    ensures IsLongestBorder(pat, q, r)
  {
    LongestBorderBelow(pat, q, q - 1)
  }

  /** The longest border is unique: a table entry that satisfies
      IsLongestBorder is exactly LongestBorder. */
  lemma LongestBorderUnique(pat: seq<bv8>, q: nat, v: int)
    requires 1 <= q <= |pat|
    ensures IsLongestBorder(pat, q, v) <==> v == LongestBorder(pat, q)
  {
  }

  /** For two borders k1 < k2 of pat[..q], k1 is also a border of pat[..k2],
      and conversely a border of the border pat[..k2] is a border of pat[..q]. */
  lemma BorderOfBorder(pat: seq<bv8>, q: nat, k1: nat, k2: nat)
    requires IsBorder(pat, q, k2) && k1 < k2
    ensures IsBorder(pat, k2, k1) <==> IsBorder(pat, q, k1)
  {
    if IsBorder(pat, k2, k1) {
      forall t | 0 <= t < k1 ensures pat[t] == pat[q - k1 + t] {
        assert pat[t] == pat[k2 - k1 + t];
        assert pat[k2 - k1 + t] == pat[q - k2 + (k2 - k1 + t)];
      }
    }
    if IsBorder(pat, q, k1) {
      forall t | 0 <= t < k1 ensures pat[t] == pat[k2 - k1 + t] {
        assert pat[t] == pat[q - k1 + t];
        assert pat[k2 - k1 + t] == pat[q - k2 + (k2 - k1 + t)];
      }
    }
  }

  /** A border of pat[..q + 1] of length k > 0 is a border of pat[..q] of
      length k - 1 followed by a matching byte, and conversely. */
  lemma BorderExtend(pat: seq<bv8>, q: nat, k: nat)
    requires 0 < k <= q < |pat|
    ensures IsBorder(pat, q + 1, k) <==> IsBorder(pat, q, k - 1) && pat[k - 1] == pat[q]
  {
  }

  /** Appending one byte lengthens the longest border by at most one. */
  lemma LongestBorderGrowsByAtMostOne(pat: seq<bv8>, q: nat, v: nat)
    requires 1 <= q < |pat|
    requires IsLongestBorder(pat, q, v)
    ensures NoBorderAbove(pat, q + 1, v + 1)
  {
    var next := q + 1;
    forall k | v + 1 < k < next ensures !IsBorder(pat, next, k) {
      BorderExtend(pat, q, k);
    }
  }

  /** compute_lps_array, matching byte: the border len of pat[..i] extends to
      the longest border len + 1 of pat[..i + 1]. */
  lemma LpsExtendStep(pat: seq<bv8>, i: nat, len: nat)
    requires len < i < |pat|
    requires IsBorder(pat, i, len)
    requires NoBorderAbove(pat, i + 1, len + 1)
    requires pat[i] == pat[len]
    ensures IsLongestBorder(pat, i + 1, len + 1)
    ensures i + 1 < |pat| ==> NoBorderAbove(pat, (i + 1) + 1, (len + 1) + 1)
  {
    BorderExtend(pat, i, len + 1);
    if i + 1 < |pat| {
      LongestBorderGrowsByAtMostOne(pat, i + 1, len + 1);
    }
  }

  /** compute_lps_array, mismatch with len > 0: falling back to
      fall = lps[len - 1] keeps a border of pat[..i] and loses no candidate
      for the longest border of pat[..i + 1]. */
  lemma LpsFallbackStep(pat: seq<bv8>, i: nat, len: nat, fall: int)
    requires 0 < len < i < |pat|
    requires IsBorder(pat, i, len)
    requires NoBorderAbove(pat, i + 1, len + 1)
    requires pat[i] != pat[len]
    requires IsLongestBorder(pat, len, fall)
    ensures 0 <= fall < len
    ensures IsBorder(pat, i, fall)
    ensures NoBorderAbove(pat, i + 1, fall + 1)
  {
    BorderOfBorder(pat, i, fall, len);
    var next := i + 1;
    forall b | fall + 1 < b < next ensures !IsBorder(pat, next, b) {
      FallbackLosesNoBorder(pat, i, len, fall, b);
    }
  }

  /** One candidate of LpsFallbackStep: a border b > fall + 1 of pat[..i + 1]
      would give a border b - 1 of pat[..len] longer than fall. */
  lemma FallbackLosesNoBorder(pat: seq<bv8>, i: nat, len: nat, fall: int, b: nat)
    requires 0 < len < i < |pat|
    requires IsBorder(pat, i, len)
    requires NoBorderAbove(pat, i + 1, len + 1)
    requires pat[i] != pat[len]
    requires IsLongestBorder(pat, len, fall)
    requires fall + 1 < b < i + 1
    ensures !IsBorder(pat, i + 1, b)
  {
    BorderExtend(pat, i, b);
    if b - 1 < len {
      BorderOfBorder(pat, i, b - 1, len);
    }
  }

  /** compute_lps_array, mismatch with len == 0: pat[..i + 1] has no
      non-empty proper border. */
  lemma LpsResetStep(pat: seq<bv8>, i: nat)
    requires 0 < i < |pat|
    requires NoBorderAbove(pat, i + 1, 1)
    requires pat[i] != pat[0]
    ensures IsLongestBorder(pat, i + 1, 0)
    ensures i + 1 < |pat| ==> NoBorderAbove(pat, (i + 1) + 1, 1)
  {
    BorderExtend(pat, i, 1);
    if i + 1 < |pat| {
      LongestBorderGrowsByAtMostOne(pat, i + 1, 0);
    }
  }

  /** The j bytes of text before index e are the first j bytes of the pattern. */
  predicate MatchedPrefix(text: seq<bv8>, pattern: seq<bv8>, e: nat, j: nat)
  {
    j <= e <= |text| && j <= |pattern| && forall t :: 0 <= t < j ==> text[e - j + t] == pattern[t]
  }

  /** The state kmp_match keeps after scanning i bytes of text[position..]:
      the j bytes before text index position + i match the pattern's first
      j bytes, and no occurrence starts in [position, position + i - j). */
  predicate KmpState(text: seq<bv8>, pattern: seq<bv8>, position: nat, i: nat, j: nat)
  {
    && j <= i && position + i <= |text|
    && MatchedPrefix(text, pattern, position + i, j)
    && NoOccurrenceIn(text, pattern, position, position + i - j)
  }

  /** kmp_match, matching byte: one more byte of the pattern is matched. */
  lemma KmpMatchByte(text: seq<bv8>, pattern: seq<bv8>, position: nat, i: nat, j: nat)
    requires j < |pattern| && position + i < |text|
    requires KmpState(text, pattern, position, i, j)
    requires pattern[j] == text[position + i]
    ensures KmpState(text, pattern, position, i + 1, j + 1)
  {
  }

  /** kmp_match, mismatch with nothing matched: no occurrence starts at
      position + i. */
  lemma KmpAdvance(text: seq<bv8>, pattern: seq<bv8>, position: nat, i: nat)
    requires 0 < |pattern| && position + i < |text|
    requires KmpState(text, pattern, position, i, 0)
    requires pattern[0] != text[position + i]
    ensures KmpState(text, pattern, position, i + 1, 0)
  {
  }

  /** kmp_match, complete match ending before position + i: it is the first
      occurrence at or after position. */
  lemma KmpFound(text: seq<bv8>, pattern: seq<bv8>, position: nat, i: nat)
    requires KmpState(text, pattern, position, i, |pattern|)
    ensures FirstFrom(text, pattern, position) == Some(position + i - |pattern|)
  {
    var e := position + i;
    assert text[e - |pattern|..e] == pattern;
    FirstFromSkip(text, pattern, position, e - |pattern|);
  }

  /** kmp_match, end of the text reached with j < |pattern| bytes matched:
      there is no occurrence at or after position. */
  lemma KmpExhausted(text: seq<bv8>, pattern: seq<bv8>, position: nat, i: nat, j: nat)
    requires j < |pattern| && position + i == |text|
    requires KmpState(text, pattern, position, i, j)
    ensures FirstFrom(text, pattern, position) == None
  {
    FirstFromSkip(text, pattern, position, |text| - j);
  }

  /** kmp_match, mismatch after j > 0 matched bytes: falling back to
      fall = lps[j - 1] matched bytes skips no occurrence. */
  lemma KmpFallback(text: seq<bv8>, pattern: seq<bv8>, position: nat, i: nat, j: nat, fall: int)
    requires 0 < j < |pattern| && position + i < |text|
    requires KmpState(text, pattern, position, i, j)
    requires pattern[j] != text[position + i]
    requires IsLongestBorder(pattern, j, fall)
    ensures 0 <= fall < j
    ensures KmpState(text, pattern, position, i, fall)
  {
    var e := position + i;
    KmpFallbackWindow(text, pattern, e, j, fall);
    NoOccurrenceJoin(text, pattern, position, e - j, e - fall);
  }
  /** The mismatch window: no occurrence starts in [e - j, e - fall), and the
      last fall bytes before e still match the pattern. */
  lemma KmpFallbackWindow(text: seq<bv8>, pattern: seq<bv8>, e: nat, j: nat, fall: nat)
    requires 0 < j < |pattern| && e < |text|
    requires MatchedPrefix(text, pattern, e, j)
    requires pattern[j] != text[e]
    requires IsLongestBorder(pattern, j, fall)
    ensures NoOccurrenceIn(text, pattern, e - j, e - fall)
    ensures MatchedPrefix(text, pattern, e, fall)
  {
    forall s | e - j <= s < e - fall ensures !OccursAt(text, pattern, s) {
      if s + |pattern| <= |text| {
        if s == e - j {
          assert text[s..s + |pattern|][j] != pattern[j];
        } else {
          var k := e - s;
          assert !IsBorder(pattern, j, k);
          var t :| 0 <= t < k && pattern[t] != pattern[j - k + t];
          assert text[e - j + (j - k + t)] == pattern[j - k + t];
          assert text[s..s + |pattern|][t] != pattern[t];
        }
      }
    }
    forall t | 0 <= t < fall ensures text[e - fall + t] == pattern[t] {
      assert text[e - j + (j - fall + t)] == pattern[j - fall + t];
    }
  }
}
