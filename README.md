# Substring search of string_match_experiment, verified in Dafny

This project models the substring-search layer of the `string_match_experiment`
benchmark and proves it correct:

- the `StringMatch` object, which holds a text, a pattern and the fixed
  1024-entry Knuth–Morris–Pratt failure table `lps`, filled by its two
  constructors through `compute_lps_array`;
- its two "first occurrence at or after `position`" procedures,
  `simple_string_match` (naive scan) and `kmp_match` (Knuth–Morris–Pratt);
- the `MatchFunc` dispatch through `fn_simpe_match` / `fn_kmp_match`;
- the counting loop of `test_match`, which resumes one byte after every hit;
- the window comparisons `str_cmp_backward` and `str_cmp_raita` and the
  `max` / `min` macros of `util.h`.

Modules:

- `Occurrences` (occurrences.dfy) holds the reference definitions
  every matcher is proved against: `OccursAt`, `FirstFrom` (the least
  occurrence at or after a position), `OccurrencesFrom` (all occurrences in
  ascending order) and `OccurrenceSet`.
- `Borders` (borders.dfy) defines the meaning of `lps`: `lps[q]` is the
  length of the longest proper border of `pattern[..q + 1]`, that is, the
  longest proper prefix that is also a suffix (`IsLongestBorder`, with the
  reference function `LongestBorder`). It also holds the step lemmas of
  `compute_lps_array` and `kmp_match`.
- `StringMatching` (string_match.dfy) holds the class `StringMatch`, with
  `text` and `pattern` as byte sequences and `lps` as an `array<int>` of
  length 1024. It also holds the matchers, ComputeLpsArray, the
  `MatchFunc` datatype and `TestMatch`.
- `Util` (util.dfy) holds `util.h`.

"Not found", which the source returns as the `SIZE_MAX` sentinel `-1`, is
`None`. The comparison methods return a ghost `probes` list: the indices
whose bytes they compare, in order. Each is proved to scan a fixed order and
stop at the first mismatch (`StopsAtFirstMismatch`).

About the loop of `compute_lps_array`: `len == lps[i - 1]` does not hold at
every loop head. For the pattern "AAB", after the fallback at `i == 2`,
`len` is 0 while `lps[1]` is 1. The invariant that does hold is weaker: `len`
is a border of `pat[..i]`, and no border of `pat[..i + 1]` is longer than
`len + 1`. Termination is by `i` rising or, with `i` fixed, `len` falling to
`lps[len - 1] < len`.

## Model

| member | source | states |
|---|---|---|
| Occurrences.FirstFromIsLeast | string_match.cpp:63-79 | FirstFrom(position), when present, is an occurrence at or after position with none before it; when absent, no occurrence exists at or after position |
| Occurrences.FirstFromSkip | string_match.cpp:67-78 | skipping start positions without an occurrence does not change the first occurrence |
| Occurrences.OccurrencesFromSpec | string_match.cpp:214-227 | the enumerated list contains exactly the occurrences at or after position and is strictly increasing |
| Occurrences.OccurrencesAfterFirst | string_match.cpp:222-226 | the list of occurrences starts with the first one, and resuming one index after it yields the rest; no first occurrence means an empty list |
| Occurrences.OccurrenceCountFrom | string_match.cpp:214-227 | the length of the occurrence list equals the number of indices at which the pattern occurs |
| Occurrences.OccurrenceCount | string_match.cpp:214-227 | the same from index 0: the list length is the size of the occurrence set |
| Occurrences.OverlappingExample | string_match.cpp:222-226 | "aa" occurs in "aaaa" at 0, 1 and 2, so the count is 3 and overlapping hits are counted |
| Borders.LongestBorderBelow | string_match.cpp:83-115 | the result is a border of pat[..q] of length at most k, and no longer border up to k exists |
| Borders.LongestBorder | string_match.cpp:83-115 | the result satisfies IsLongestBorder: a proper border of pat[..q], with none longer |
| Borders.LongestBorderUnique | string_match.cpp:83-115 | a value satisfies IsLongestBorder exactly when it equals LongestBorder, so the table is uniquely determined |
| Borders.BorderOfBorder | string_match.cpp:102-103 | for borders k1 < k2 of pat[..q], k1 is a border of pat[..k2] exactly when it is a border of pat[..q] |
| Borders.BorderExtend | string_match.cpp:92-95 | a border of pat[..q + 1] of length k is a border of pat[..q] of length k - 1 followed by equal bytes pat[k - 1] and pat[q], and conversely |
| Borders.LongestBorderGrowsByAtMostOne | string_match.cpp:92-95 | appending a byte lengthens the longest border by at most one |
| Borders.LpsExtendStep | string_match.cpp:92-96 | on pat[i] == pat[len], len + 1 is the longest border of pat[..i + 1], and the loop invariant holds for i + 1 |
| Borders.LpsFallbackStep | string_match.cpp:102-103 | on a mismatch with len > 0, lps[len - 1] < len is again a border of pat[..i] and loses no candidate for the border of pat[..i + 1] |
| Borders.FallbackLosesNoBorder | string_match.cpp:102-103 | a single candidate of the fallback: no border of pat[..i + 1] is longer than lps[len - 1] + 1 |
| Borders.LpsResetStep | string_match.cpp:108-111 | on a mismatch with len == 0, pat[..i + 1] has longest border 0, and the loop invariant holds for i + 1 |
| Borders.KmpAdvance | string_match.cpp:147-148 | a mismatch with nothing matched rules out an occurrence at the current index |
| Borders.KmpFound | string_match.cpp:134-136 | once j == M bytes are matched, position + i - M is the first occurrence at or after position |
| Borders.KmpExhausted | string_match.cpp:150-154 | reaching the end of the text with fewer than M bytes matched means no occurrence at or after position |
| Borders.KmpFallback | string_match.cpp:142-146 | on a mismatch after j > 0 matched bytes, falling back to lps[j - 1] < j preserves the search state and skips no occurrence |
| Borders.KmpFallbackWindow | string_match.cpp:142-146 | no occurrence starts in the window abandoned by the fallback, and the last lps[j - 1] bytes still match |
| Util.Max | util.h:6 | the result is at least both arguments and equal to one of them |
| Util.Min | util.h:7 | the result is at most both arguments and equal to one of them |
| Util.SameWindowIsPrefixEquality | util.h:94-133 | bytewise agreement of the first len bytes is equality of the two length-len prefixes |
| Util.StrCmpBackward | util.h:94-104 | returns only 0 or 1, 0 exactly when the windows agree; compares len - 1 down to 0 and stops at the first mismatch |
| Util.StrCmpRaita | util.h:106-133 | for every len, returns only 0 or 1, 0 exactly when the windows agree (so len == 0 gives 0); compares along RaitaOrder and stops at the first mismatch |
| Util.RaitaOrder | util.h:111-132 | every index of the comparison order lies inside the window |
| Util.RaitaOrderCovers | util.h:106-133 | every index of the window is compared when the windows agree |
| Util.RaitaOrderLength | util.h:111-132 | for len >= 3 the order has len + 1 entries: the middle byte is compared a second time by the interior scan |
| Util.RaitaMiddleFirst | util.h:111-115 | for len >= 3 a mismatching middle byte is the only byte pair compared, and the answer is 1 |
| Util.RaitaInterior | util.h:132 | str_cmp_backward on str[1..len - 1] completes a scan of RaitaOrder(len) after the three agreeing probes |
| Util.ScanShift | util.h:132 | a scan of str[1..] is, one index up, a scan of str |
| Util.ScanPrepend | util.h:111-132 | agreeing probes put in front of a non-empty scan give a scan of the longer order |
| Util.WindowSplit | util.h:117-132 | a window of length >= 3 agrees exactly when its first byte, its last byte and its interior agree |
| StringMatching.StrLen | string_match.cpp:32-35 | the result is the index of the first NUL byte |
| StringMatching.StringMatch.WithLength | string_match.cpp:51-55 | the text is the first text_length bytes of the buffer, the pattern is s_match, and the table is valid |
| StringMatching.StringMatch.FromCString | string_match.cpp:57-60 | the text is the NUL-terminated string s_text, the pattern is s_match, and the table is valid |
| StringMatching.StringMatch.ComputeLpsArray | string_match.cpp:83-115 | lps[0] == 0, and every lps[q] with q < M is the length of the longest proper border of pat[..q + 1] (hence 0 <= lps[q] <= q); entries at and beyond M are untouched |
| StringMatching.StringMatch.SimpleStringMatch | string_match.cpp:63-80 | returns FirstFrom(text, pattern, position), the least occurrence at or after position, or None |
| StringMatching.StringMatch.KmpMatch | string_match.cpp:117-155 | for position <= |text|, returns FirstFrom(text, pattern, position), the same result as simple_string_match |
| StringMatching.CallMatchFunc | string_match.cpp:204-212 | either matcher choice returns FirstFrom(text, pattern, loc) |
| StringMatching.TestMatch | string_match.cpp:214-228 | the hits visited are OccurrencesFrom(text, pattern, 0), in increasing order and overlaps included; the count is the number of occurrence indices; every call has loc <= |text|, and the loop terminates |
| StringMatching.CompareMatchers | string_match.cpp:241-245 | the naive matcher and KMP count the same number of occurrences, namely the size of the occurrence set |

## Left out

- `AutoTimer`, `read_entire_file`, `duplicate_content` and `main`'s file path and `printf` reporting: these are wall-clock timing, file I/O and benchmark input synthesis. `TestMatch` returns the count instead of printing it, and `FileContents` is taken as a given buffer and size.
- The `strlen` of `StringRef(char*)` for the pattern: the pattern is an explicit byte sequence. `StrLen` models it only for the text of the two-argument constructor.
- Pointer arithmetic (`text.contents + position`, `&str1[1]`) is modelled as index offsets and the slices `str1[1..]`.
- The `array_count` macro is not used by the modelled code.
- A pattern longer than 1024 bytes would overflow the fixed `lps[1024]` field, so the constructors require `|sMatch| <= 1024`. With an empty pattern, `kmp_match` reads `lps[-1]` and `simple_string_match` can read past the pattern's terminator, so the matchers require a non-empty pattern.
- StringMatching.StringMatch.KmpMatch: the `int` indices `i` and `j` are unbounded integers in the model; overflow for texts longer than `INT_MAX` bytes is not modelled.
- In `simple_string_match`, the post-increment `j++` also runs on the failing comparison. That leaves `j` one past the compared byte, but the value is dead and the model does not track it.
- In `kmp_match`, the `j = lps[j - 1]` before `break` is dead. The model performs it, but nothing reads it.
- The unused local `i` of `str_cmp_raita` is dropped.
- `kmp_match` keeps no automaton state between calls: `j` starts at 0 at every call, and `test_match` resumes at `loc + 1`.
