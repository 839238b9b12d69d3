/** Python's `re.search(pattern, s)` for a pattern that is an alternation of
    plain literals (`a|b|c`, where `\.` is a literal dot): the leftmost
    position at which some alternative matches, and at that position the
    first alternative, in pattern order, that matches. */
module LiteralSearch {
  import opened Wrappers
  import opened PyStr

  /** A successful search: where the match starts and which alternative matched. */
  datatype Match = Match(start: nat, alt: nat)

  /** Some alternative of `alts` occurs in `s`. */
  predicate ContainsAny(s: string, alts: seq<string>)
  {
    exists k :: 0 <= k < |alts| && Contains(s, alts[k])
  }

  /** The index of the first alternative that matches at position `i`, or
      `|alts|` when none does. */
  function FirstAlternativeAt(s: string, i: nat, alts: seq<string>): (k: nat)
    ensures k <= |alts|
    ensures k < |alts| ==> OccursAt(s, alts[k], i)
    ensures forall j :: 0 <= j < k ==> !OccursAt(s, alts[j], i)
    decreases |alts|
  {
    if alts == [] then 0
    else if OccursAt(s, alts[0], i) then 0
    else 1 + FirstAlternativeAt(s, i, alts[1..])
  }

  /** The regex engine's scan, trying positions `i`, `i + 1`, ..., `|s|` in turn. */
  function SearchFrom(s: string, i: nat, alts: seq<string>): (r: Option<Match>)
    requires i <= |s|
    ensures r.Some? ==> i <= r.value.start <= |s| && r.value.alt < |alts|
    ensures r.Some? ==> OccursAt(s, alts[r.value.alt], r.value.start)
    ensures r.Some? ==> forall k :: 0 <= k < r.value.alt ==> !OccursAt(s, alts[k], r.value.start)
    ensures r.Some? ==> forall j, k :: i <= j < r.value.start && 0 <= k < |alts| ==> !OccursAt(s, alts[k], j)
    ensures r.None? ==> forall j, k :: i <= j <= |s| && 0 <= k < |alts| ==> !OccursAt(s, alts[k], j)
    decreases |s| - i
  {
    var k := FirstAlternativeAt(s, i, alts);
    if k < |alts| then Some(Match(i, k))
    else if i == |s| then None
    else SearchFrom(s, i + 1, alts)
  }

  /** `re.search(alts[0] | alts[1] | ..., s)`. */
  function Search(alts: seq<string>, s: string): (r: Option<Match>)
    ensures r.Some? ==> r.value.alt < |alts| && OccursAt(s, alts[r.value.alt], r.value.start)
    ensures r.Some? ==> forall k :: 0 <= k < r.value.alt ==> !OccursAt(s, alts[k], r.value.start)
    ensures r.Some? ==> forall j, k :: 0 <= j < r.value.start && 0 <= k < |alts| ==> !OccursAt(s, alts[k], j)
  {
    SearchFrom(s, 0, alts)
  }

  /** The search succeeds exactly when some alternative occurs in the text. */
  lemma SearchFindsAny(alts: seq<string>, s: string)
    ensures Search(alts, s).Some? <==> ContainsAny(s, alts)
  {
    var r := Search(alts, s);
    if r.Some? {
      assert Contains(s, alts[r.value.alt]);
    }
  }
}
