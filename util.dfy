/** The helpers of util.h: the max/min macros and the two window-comparison
    primitives.  Both comparisons return 0 for "equal" and 1 for "different";
    their ghost `probes` result lists, in order, the indices whose bytes they
    compare. */
module Util {

  /** The max(a, b) macro. */
  function Max(a: int, b: int): (r: int)
    ensures r >= a && r >= b
    ensures r == a || r == b
  {
    if a > b then a else b
  }

  /** The min(a, b) macro. */
  function Min(a: int, b: int): (r: int)
    ensures r <= a && r <= b
    ensures r == a || r == b
  {
    if a < b then a else b
  }

  /** The first len bytes of str1 and str2 agree. */
  predicate SameWindow(str1: seq<bv8>, str2: seq<bv8>, len: nat)
    requires len <= |str1| && len <= |str2|
  {
    forall k :: 0 <= k < len ==> str1[k] == str2[k]
  }

  /** SameWindow is equality of the two length-len prefixes. */
  lemma SameWindowIsPrefixEquality(str1: seq<bv8>, str2: seq<bv8>, len: nat)
    requires len <= |str1| && len <= |str2|
    ensures SameWindow(str1, str2, len) <==> str1[..len] == str2[..len]
  {
  }

  /** The indices hi, hi - 1, ..., lo. */
  function Countdown(hi: nat, lo: nat): (r: seq<nat>)
    requires lo <= hi
    ensures |r| == hi - lo + 1
    ensures forall t :: 0 <= t < |r| ==> r[t] == hi - t
    decreases hi - lo
  {
    if hi == lo then [hi] else [hi] + Countdown(hi - 1, lo)
  }

  /** Each index of the sequence shifted up by d. */
  function Shift(probes: seq<nat>, d: nat): (r: seq<nat>)
    ensures |r| == |probes|
    ensures forall t :: 0 <= t < |r| ==> r[t] == probes[t] + d
  {
    seq(|probes|, t requires 0 <= t < |probes| => probes[t] + d)
  }

  /** The order in which str_cmp_raita compares the bytes of a window of
      length len when they all agree: the middle byte (for len >= 3), the
      first, the last, and then the interior from len - 2 down to 1. */
  function RaitaOrder(len: nat): (r: seq<nat>)
    ensures forall t :: 0 <= t < |r| ==> r[t] < len
  {
    if len >= 3 then [len / 2, 0, len - 1] + Countdown(len - 2, 1)
    else if len == 2 then [0, 1]
    else if len == 1 then [0]
    else []
  }

  /** probes is a scan of str1 against str2 along order that stops at the
      first mismatch: a prefix of order whose every index but the last holds
      equal bytes; r == 1 exactly when its last index holds different bytes,
      and when r == 0 the scan covered all of order. */
  predicate StopsAtFirstMismatch(str1: seq<bv8>, str2: seq<bv8>, order: seq<nat>, probes: seq<nat>, r: nat)
    requires forall t :: 0 <= t < |order| ==> order[t] < |str1| && order[t] < |str2|
  {
    && probes <= order
    && (forall t :: 0 <= t < |probes| - 1 ==> str1[order[t]] == str2[order[t]])
    && (r == 1 <==> |probes| > 0 && str1[order[|probes| - 1]] != str2[order[|probes| - 1]])
    && (r == 0 ==> probes == order)
  }

  /** Raita compares the middle byte a second time in its interior scan: for
      len >= 3 it makes len + 1 comparisons when the windows agree. */
  lemma RaitaOrderLength(len: nat)
    ensures |RaitaOrder(len)| == if len >= 3 then len + 1 else len
  {
  }

  /** Every index of the window occurs in RaitaOrder, so no byte of the
      window goes unexamined when the windows agree. */
  lemma RaitaOrderCovers(len: nat, k: nat)
    requires k < len
    ensures k in RaitaOrder(len)
  {
    if len >= 3 && 1 <= k <= len - 2 {
      assert RaitaOrder(len)[3 + (len - 2 - k)] == k;
    }
  }

  /** For len >= 3 a mismatching middle byte is the first and only byte pair
      str_cmp_raita compares: any scan along RaitaOrder that decides the
      window then consists of the middle index alone and answers 1. */
  lemma RaitaMiddleFirst(str1: seq<bv8>, str2: seq<bv8>, len: nat, r: nat, probes: seq<nat>)
    requires 3 <= len <= |str1| && len <= |str2|
    requires str1[len / 2] != str2[len / 2]
    requires r == 0 || r == 1
    requires r == 0 <==> SameWindow(str1, str2, len)
    requires StopsAtFirstMismatch(str1, str2, RaitaOrder(len), probes, r)
    ensures r == 1 && probes == [len / 2]
  {
    assert RaitaOrder(len)[0] == len / 2;
    assert r != 0;
    assert str1[RaitaOrder(len)[0]] != str2[RaitaOrder(len)[0]];
    assert |probes| > 0 && probes[0] == len / 2;
  }

  /** str_cmp_backward: compares str1[..len] and str2[..len] from index
      len - 1 down to 0 and stops at the first mismatch.  len == 0 is outside
      its domain, since len - 1 would wrap around. */
  method StrCmpBackward(str1: seq<bv8>, str2: seq<bv8>, len: nat) returns (r: nat, ghost probes: seq<nat>)
    requires 1 <= len <= |str1| && len <= |str2|
    ensures r == 0 || r == 1
    ensures r == 0 <==> SameWindow(str1, str2, len)
    ensures StopsAtFirstMismatch(str1, str2, Countdown(len - 1, 0), probes, r)
  {
    ghost var order := Countdown(len - 1, 0);
    var i := len - 1;
    probes := [i];
    while str1[i] == str2[i]
      invariant i < len
      invariant probes == order[..len - i]
      invariant forall k :: i < k < len ==> str1[k] == str2[k]
      decreases i
    {
      if i == 0 {
        assert probes == order;
        return 0, probes;
      }
      i := i - 1;
      probes := probes + [i];
      assert probes == order[..len - i];
    }
    return 1, probes;
  }

  /** str_cmp_raita: compares the middle byte (when len >= 3), then the first,
      then the last, and only then the interior str[1..len - 1] backward. */
  method StrCmpRaita(str1: seq<bv8>, str2: seq<bv8>, len: nat) returns (r: nat, ghost probes: seq<nat>)
    requires len <= |str1| && len <= |str2|
    ensures r == 0 || r == 1
    ensures r == 0 <==> SameWindow(str1, str2, len)
    ensures StopsAtFirstMismatch(str1, str2, RaitaOrder(len), probes, r)
  {
    var mid := len / 2;
    probes := [];

    if len >= 3 {
      probes := probes + [mid];
      if str1[mid] != str2[mid] {
        return 1, probes;
      }
    }

    if len >= 1 {
      probes := probes + [0];
      if str1[0] != str2[0] {
        return 1, probes;
      }
    }

    if len >= 2 {
      probes := probes + [len - 1];
      if str1[len - 1] != str2[len - 1] {
        return 1, probes;
      }
    }

    if len < 3 {
      return 0, probes;
    }

    assert probes == [mid, 0, len - 1];
    ghost var inner: seq<nat>;
    r, inner := StrCmpBackward(str1[1..], str2[1..], len - 2);
    RaitaInterior(str1, str2, len, r, inner);
    WindowSplit(str1, str2, len);
    probes := probes + Shift(inner, 1);
  }

  /** A scan of str[1..] is, one index up, a scan of str. */
  lemma ScanShift(str1: seq<bv8>, str2: seq<bv8>, order: seq<nat>, probes: seq<nat>, r: nat)
    requires 1 <= |str1| && 1 <= |str2|
    requires forall t :: 0 <= t < |order| ==> order[t] < |str1| - 1 && order[t] < |str2| - 1
    requires StopsAtFirstMismatch(str1[1..], str2[1..], order, probes, r)
    ensures StopsAtFirstMismatch(str1, str2, Shift(order, 1), Shift(probes, 1), r)
  {
  }

  /** Probes that all hold equal bytes, put in front of a non-empty scan,
      give a scan of the longer order. */
  lemma ScanPrepend(str1: seq<bv8>, str2: seq<bv8>, head: seq<nat>, order: seq<nat>, probes: seq<nat>, r: nat)
    requires forall t :: 0 <= t < |head| ==> head[t] < |str1| && head[t] < |str2| && str1[head[t]] == str2[head[t]]
    requires forall t :: 0 <= t < |order| ==> order[t] < |str1| && order[t] < |str2|
    requires StopsAtFirstMismatch(str1, str2, order, probes, r) && |probes| > 0
    ensures StopsAtFirstMismatch(str1, str2, head + order, head + probes, r)
  {
  }

  /** The interior scan of str_cmp_raita, run once the middle, first and
      last bytes agree: str_cmp_backward on str[1..len - 1] scans the rest of
      RaitaOrder(len). */
  lemma RaitaInterior(str1: seq<bv8>, str2: seq<bv8>, len: nat, r: nat, inner: seq<nat>)
    requires 3 <= len <= |str1| && len <= |str2|
    requires str1[len / 2] == str2[len / 2] && str1[0] == str2[0] && str1[len - 1] == str2[len - 1]
    requires r == 0 || r == 1
    requires StopsAtFirstMismatch(str1[1..], str2[1..], Countdown(len - 2 - 1, 0), inner, r)
    ensures StopsAtFirstMismatch(str1, str2, RaitaOrder(len), [len / 2, 0, len - 1] + Shift(inner, 1), r)
  {
    var low := Countdown(len - 2 - 1, 0);
    var head: seq<nat> := [len / 2, 0, len - 1];
    forall t | 0 <= t < |head| ensures str1[head[t]] == str2[head[t]] {
      assert t == 0 || t == 1 || t == 2;
    }
    assert Shift(low, 1) == Countdown(len - 2, 1);
    ScanShift(str1, str2, low, inner, r);
    ScanPrepend(str1, str2, head, Shift(low, 1), Shift(inner, 1), r);
  }

  /** The window agrees exactly when its first and last bytes and its
      interior str[1..len - 1] agree. */
  lemma WindowSplit(str1: seq<bv8>, str2: seq<bv8>, len: nat)
    requires 3 <= len <= |str1| && len <= |str2|
    ensures SameWindow(str1, str2, len) <==>
      str1[0] == str2[0] && str1[len - 1] == str2[len - 1] && SameWindow(str1[1..], str2[1..], len - 2)
  {
  }
}
