/** Reference definitions of what a substring search must find: where a
    pattern occurs in a text, the first occurrence at or after a position,
    and the ascending list of all occurrences.  Both matchers of
    StringMatching are proved against these definitions. */
module Occurrences {

  datatype Option<+T> = None | Some(value: T)

  /** The pattern occurs in the text starting at index k. */
  predicate OccursAt(text: seq<bv8>, pattern: seq<bv8>, k: nat)
  {
    k + |pattern| <= |text| && text[k..k + |pattern|] == pattern
  }

  /** The pattern occurs nowhere in [lo, hi). */
  predicate NoOccurrenceIn(text: seq<bv8>, pattern: seq<bv8>, lo: nat, hi: nat)
  {
    forall k :: lo <= k < hi ==> !OccursAt(text, pattern, k)
  }

  /** Two adjacent ranges without occurrences make one. */
  lemma NoOccurrenceJoin(text: seq<bv8>, pattern: seq<bv8>, lo: nat, mid: nat, hi: nat)
    requires lo <= mid <= hi
    requires NoOccurrenceIn(text, pattern, lo, mid) && NoOccurrenceIn(text, pattern, mid, hi)
    ensures NoOccurrenceIn(text, pattern, lo, hi)
  {
  }

  /** The lowest index k >= position at which the pattern occurs, if any. */
  function FirstFrom(text: seq<bv8>, pattern: seq<bv8>, position: nat): Option<nat>
    decreases |text| - position
  {
    if position + |pattern| > |text| then None
    else if OccursAt(text, pattern, position) then Some(position)
    else FirstFrom(text, pattern, position + 1)
  }

  /** All indices k >= position at which the pattern occurs, in ascending order. */
  function OccurrencesFrom(text: seq<bv8>, pattern: seq<bv8>, position: nat): seq<nat>
    decreases |text| - position
  {
    if position + |pattern| > |text| then []
    else if OccursAt(text, pattern, position) then [position] + OccurrencesFrom(text, pattern, position + 1)
    else OccurrencesFrom(text, pattern, position + 1)
  }

  /** The set of all indices at which the pattern occurs. */
  ghost function OccurrenceSet(text: seq<bv8>, pattern: seq<bv8>): set<nat>
  {
    OccurrenceSetFrom(text, pattern, 0)
  }

  ghost function OccurrenceSetFrom(text: seq<bv8>, pattern: seq<bv8>, position: nat): set<nat>
  {
    set k: nat | position <= k <= |text| && OccursAt(text, pattern, k)
  }

  /** FirstFrom is the least occurrence at or after position, and None exactly
      when there is no occurrence at or after position. */
  lemma {:induction false} FirstFromIsLeast(text: seq<bv8>, pattern: seq<bv8>, position: nat)
    ensures FirstFrom(text, pattern, position).Some? ==>
      var k := FirstFrom(text, pattern, position).value;
      position <= k && OccursAt(text, pattern, k) &&
      forall k' :: position <= k' < k ==> !OccursAt(text, pattern, k')
    ensures FirstFrom(text, pattern, position).None? ==>
      forall k :: position <= k ==> !OccursAt(text, pattern, k)
    decreases |text| - position
  {
    if position + |pattern| > |text| {
    } else if OccursAt(text, pattern, position) {
    } else {
      FirstFromIsLeast(text, pattern, position + 1);
    }
  }

  /** Skipping positions where the pattern does not occur does not change the
      first occurrence. */
  lemma {:induction false} FirstFromSkip(text: seq<bv8>, pattern: seq<bv8>, lo: nat, hi: nat)
    requires lo <= hi
    requires NoOccurrenceIn(text, pattern, lo, hi)
    ensures FirstFrom(text, pattern, lo) == FirstFrom(text, pattern, hi)
    decreases hi - lo
  {
    if lo < hi {
      FirstFromSkip(text, pattern, lo + 1, hi);
      if lo + |pattern| > |text| {
        assert hi + |pattern| > |text|;
      }
    }
  }

  predicate StrictlyIncreasing(s: seq<nat>)
  {
    forall a, b :: 0 <= a < b < |s| ==> s[a] < s[b]
  }

  /** The members of OccurrencesFrom are exactly the occurrences at or after
      position, and they are listed in strictly increasing order. */
  lemma {:induction false} OccurrencesFromSpec(text: seq<bv8>, pattern: seq<bv8>, position: nat)
    ensures forall k :: k in OccurrencesFrom(text, pattern, position) <==>
      position <= k && OccursAt(text, pattern, k)
    ensures StrictlyIncreasing(OccurrencesFrom(text, pattern, position))
    decreases |text| - position
  {
    if position + |pattern| > |text| {
    } else {
      OccurrencesFromSpec(text, pattern, position + 1);
      var rest := OccurrencesFrom(text, pattern, position + 1);
      if OccursAt(text, pattern, position) {
        var occ := [position] + rest;
        assert OccurrencesFrom(text, pattern, position) == occ;
        forall a, b | 0 <= a < b < |occ| ensures occ[a] < occ[b] {
          var k := rest[b - 1];
          assert occ[b] == k && k in rest;
          if a == 0 {
            assert position + 1 <= k;
          } else {
            assert occ[a] == rest[a - 1];
            assert 0 <= a - 1 < b - 1 < |rest|;
            assert rest[a - 1] < rest[b - 1];
          }
        }
      }
    }
  }

  /** The list of occurrences from position starts with FirstFrom(position),
      and resuming one index after it yields the rest of the list. */
  lemma {:induction false} OccurrencesAfterFirst(text: seq<bv8>, pattern: seq<bv8>, position: nat)
    ensures FirstFrom(text, pattern, position).None? ==> OccurrencesFrom(text, pattern, position) == []
    ensures FirstFrom(text, pattern, position).Some? ==>
      var k := FirstFrom(text, pattern, position).value;
      OccurrencesFrom(text, pattern, position) == [k] + OccurrencesFrom(text, pattern, k + 1)
    decreases |text| - position
  {
    if position + |pattern| > |text| {
    } else if OccursAt(text, pattern, position) {
    } else {
      OccurrencesAfterFirst(text, pattern, position + 1);
    }
  }

  /** The length of the list of occurrences is the number of indices at which
      the pattern occurs. */
  lemma {:induction false} OccurrenceCountFrom(text: seq<bv8>, pattern: seq<bv8>, position: nat)
    ensures |OccurrencesFrom(text, pattern, position)| == |OccurrenceSetFrom(text, pattern, position)|
    decreases |text| - position
  {
    var s := OccurrenceSetFrom(text, pattern, position);
    if position + |pattern| > |text| {
      assert s == {};
    } else {
      OccurrenceCountFrom(text, pattern, position + 1);
      var s' := OccurrenceSetFrom(text, pattern, position + 1);
      assert position !in s';
      if OccursAt(text, pattern, position) {
        assert s == {position} + s';
      } else {
        assert s == s';
      }
    }
  }

  lemma OccurrenceCount(text: seq<bv8>, pattern: seq<bv8>)
    ensures |OccurrencesFrom(text, pattern, 0)| == |OccurrenceSet(text, pattern)|
  {
    OccurrenceCountFrom(text, pattern, 0);
  }

  /** "aa" occurs three times in "aaaa", at 0, 1 and 2: overlapping occurrences
      are all counted. */
  lemma OverlappingExample()
    ensures OccurrencesFrom([97, 97, 97, 97], [97, 97], 0) == [0, 1, 2]
    ensures |OccurrenceSet([97, 97, 97, 97], [97, 97])| == 3
  {
    var text: seq<bv8> := [97, 97, 97, 97];
    var pattern: seq<bv8> := [97, 97];
    assert OccursAt(text, pattern, 0) && OccursAt(text, pattern, 1) && OccursAt(text, pattern, 2);
    assert OccurrencesFrom(text, pattern, 3) == [];
    OccurrenceCount(text, pattern);
  }
}
