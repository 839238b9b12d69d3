/** The pieces of Python's `str` that the URL features are built from:
    `str.count` (non-overlapping substring counting), `str.split` with an
    explicit separator, and plain substring occurrence. Strings are `seq<char>`. */
module PyStr {

  /** `needle` occurs in `s` starting at index `i`. */
  predicate OccursAt(s: string, needle: string, i: nat)
  {
    i + |needle| <= |s| && s[i..i + |needle|] == needle
  }

  /** `needle` occurs somewhere in `s` (Python's `needle in s`). */
  predicate Contains(s: string, needle: string)
  {
    exists i: nat :: i <= |s| && OccursAt(s, needle, i)
  }

  /** Python's `s.count(needle)`: the text is scanned left to right; each
      match is counted and the scan resumes just after it, so matches never
      overlap. An empty needle matches at every one of the `|s| + 1` positions. */
  function Count(s: string, needle: string): (r: nat)
    ensures needle == [] ==> r == |s| + 1
    ensures |needle| > 0 ==> r * |needle| <= |s|
    decreases |s|
  {
    if needle == [] then |s| + 1
    else if |s| < |needle| then 0
    else if s[..|needle|] == needle then
      var k := Count(s[|needle|..], needle);
      MulSucc(k, |needle|);
      1 + k
    else Count(s[1..], needle)
  }

  /** A one-character needle is counted once per position holding it. */
  lemma {:induction false} CountSingleChar(s: string, c: char)
    ensures Count(s, [c]) == multiset(s)[c]
    decreases |s|
  {
    if |s| > 0 {
      assert s == [s[0]] + s[1..];
      assert multiset(s) == multiset{s[0]} + multiset(s[1..]);
      CountSingleChar(s[1..], c);
    }
  }

  /** How many copies of `c` a non-empty text holds, its first character and the rest. */
  lemma MultiplicityCons(s: string, c: char)
    requires |s| > 0
    ensures multiset(s)[c] == (if s[0] == c then 1 else 0) + multiset(s[1..])[c]
  {
    assert s == [s[0]] + s[1..];
    assert multiset(s) == multiset{s[0]} + multiset(s[1..]);
  }

  /** Every counted match of `needle` contributes all of its own copies of
      `c`, and matches do not overlap, so they can never claim more copies
      of `c` than `s` holds. */
  lemma {:induction false} CountTimesCharBound(s: string, needle: string, c: char)
    requires |needle| > 0
    ensures Count(s, needle) * multiset(needle)[c] <= multiset(s)[c]
    decreases |s|
  {
    var n := multiset(needle)[c];
    if |s| >= |needle| {
      if s[..|needle|] == needle {
        var rest := s[|needle|..];
        assert s == needle + rest;
        assert multiset(s)[c] == n + multiset(rest)[c];
        CountTimesCharBound(rest, needle, c);
        var k := Count(rest, needle);
        assert Count(s, needle) == 1 + k;
        MulSucc(k, n);
      } else {
        assert s == [s[0]] + s[1..];
        assert multiset(s)[c] >= multiset(s[1..])[c];
        CountTimesCharBound(s[1..], needle, c);
        assert Count(s, needle) == Count(s[1..], needle);
      }
    } else {
      assert Count(s, needle) == 0;
    }
  }

  lemma MulSucc(k: nat, n: nat)
    ensures (1 + k) * n == n + k * n
  {
  }

  /** Dropping the first character never raises the count. */
  lemma {:induction false} CountDropOne(t: string, needle: string)
    requires |needle| > 0 && |t| > 0
    ensures Count(t[1..], needle) <= Count(t, needle)
    decreases |t|, 0
  {
    if |t| >= |needle| && t[..|needle|] == needle {
      assert t[1..][|needle| - 1..] == t[|needle|..];
      CountLosesAtMostOne(t[1..], needle, |needle| - 1);
    }
  }

  /** Dropping any prefix never raises the count. */
  lemma {:induction false} CountDropPrefix(t: string, needle: string, k: nat)
    requires |needle| > 0 && k <= |t|
    ensures Count(t[k..], needle) <= Count(t, needle)
    decreases |t|, 1
  {
    if k > 0 {
      CountDropOne(t, needle);
      assert t[1..][k - 1..] == t[k..];
      CountDropPrefix(t[1..], needle, k - 1);
    }
  }

  /** Dropping fewer characters than the needle is long loses at most one match. */
  lemma {:induction false} CountLosesAtMostOne(u: string, needle: string, m: nat)
    requires |needle| > 0 && m < |needle| && m <= |u|
    ensures Count(u, needle) <= 1 + Count(u[m..], needle)
    decreases |u|, 2
  {
    if m > 0 && |u| >= |needle| {
      if u[..|needle|] == needle {
        assert u[m..][|needle| - m..] == u[|needle|..];
        CountDropPrefix(u[m..], needle, |needle| - m);
      } else {
        assert u[1..][m - 1..] == u[m..];
        CountLosesAtMostOne(u[1..], needle, m - 1);
      }
    }
  }

  /** Every non-overlapping match of a longer needle `q` starts with a match
      of its prefix `p`, so `p` is counted at least as often as `q`. */
  lemma {:induction false} CountPrefixAtLeast(s: string, p: string, q: string)
    requires |p| > 0 && |p| <= |q| && q[..|p|] == p
    ensures Count(s, q) <= Count(s, p)
    decreases |s|
  {
    if |s| >= |q| {
      assert s[..|p|] == s[..|q|][..|p|];
      if s[..|q|] == q {
        CountPrefixAtLeast(s[|q|..], p, q);
        assert s[|p|..][|q| - |p|..] == s[|q|..];
        CountDropPrefix(s[|p|..], p, |q| - |p|);
      } else {
        CountPrefixAtLeast(s[1..], p, q);
        CountDropOne(s, p);
      }
    }
  }

  /** `ps` lists occurrences of `needle` in `s`, left to right, no two of
      them overlapping. */
  predicate SpacedOccurrences(s: string, needle: string, ps: seq<nat>)
  {
    (forall i :: 0 <= i < |ps| ==> OccursAt(s, needle, ps[i]))
    && (forall i, j :: 0 <= i < j < |ps| ==> ps[i] + |needle| <= ps[j])
  }

  /** The matches the scan of `Count(s[lo..], needle)` counts, as positions of `s`. */
  function CountedMatches(s: string, needle: string, lo: nat): (ps: seq<nat>)
    requires |needle| > 0 && lo <= |s|
    ensures |ps| == Count(s[lo..], needle)
    ensures SpacedOccurrences(s, needle, ps)
    ensures forall i :: 0 <= i < |ps| ==> lo <= ps[i]
    decreases |s| - lo
  {
    var t := s[lo..];
    if |t| < |needle| then []
    else if t[..|needle|] == needle then
      assert t[|needle|..] == s[lo + |needle|..];
      assert s[lo..lo + |needle|] == t[..|needle|];
      [lo] + CountedMatches(s, needle, lo + |needle|)
    else
      assert t[1..] == s[lo + 1..];
      CountedMatches(s, needle, lo + 1)
  }

  /** Any non-overlapping occurrences at or after `lo` are at most as many as
      the scan of `s[lo..]` counts. */
  lemma {:induction false} CountAtLeastSpaced(s: string, needle: string, lo: nat, ps: seq<nat>)
    requires |needle| > 0 && lo <= |s|
    requires SpacedOccurrences(s, needle, ps)
    requires forall i :: 0 <= i < |ps| ==> lo <= ps[i]
    ensures |ps| <= Count(s[lo..], needle)
    decreases |s| - lo
  {
    if ps != [] {
      var t := s[lo..];
      assert OccursAt(s, needle, ps[0]);
      assert t[..|needle|] == s[lo..lo + |needle|];
      if t[..|needle|] == needle {
        assert t[|needle|..] == s[lo + |needle|..];
        var rest := ps[1..];
        assert forall i :: 0 <= i < |rest| ==> rest[i] == ps[i + 1];
        CountAtLeastSpaced(s, needle, lo + |needle|, rest);
      } else {
        assert ps[0] != lo;
        assert t[1..] == s[lo + 1..];
        CountAtLeastSpaced(s, needle, lo + 1, ps);
      }
    }
  }

  /** `str.count` is the largest number of pairwise non-overlapping
      occurrences: its own matches are such occurrences, and no choice of
      them is larger. */
  lemma CountIsMaximum(s: string, needle: string)
    requires |needle| > 0
    ensures SpacedOccurrences(s, needle, CountedMatches(s, needle, 0))
    ensures |CountedMatches(s, needle, 0)| == Count(s, needle)
    ensures forall ps :: SpacedOccurrences(s, needle, ps) ==> |ps| <= Count(s, needle)
  {
    assert s[0..] == s;
    forall ps | SpacedOccurrences(s, needle, ps) ensures |ps| <= Count(s, needle) {
      CountAtLeastSpaced(s, needle, 0, ps);
    }
  }

  /** Python's `needle in s` holds exactly when `s.count(needle)` is positive. */
  lemma CountPositiveIffContains(s: string, needle: string)
    ensures Count(s, needle) > 0 <==> Contains(s, needle)
  {
    if needle == [] {
      assert OccursAt(s, needle, 0);
    } else {
      assert s[0..] == s;
      if Contains(s, needle) {
        var i: nat :| i <= |s| && OccursAt(s, needle, i);
        CountAtLeastSpaced(s, needle, 0, [i]);
      }
      if Count(s, needle) > 0 {
        var ps := CountedMatches(s, needle, 0);
        assert OccursAt(s, needle, ps[0]);
      }
    }
  }

  /** Python's `s.split(sep)` for a one-character separator: the pieces
      between separators, in order, empty pieces kept. */
  function Split(s: string, sep: char): (r: seq<string>)
    ensures |r| == multiset(s)[sep] + 1
    decreases |s|
  {
    if s == [] then [""]
    else
      assert s == [s[0]] + s[1..];
      assert multiset(s) == multiset{s[0]} + multiset(s[1..]);
      var rest := Split(s[1..], sep);
      if s[0] == sep then [""] + rest
      else [[s[0]] + rest[0]] + rest[1..]
  }

  /** The pieces glued back together with the separator (Python's `sep.join`). */
  function Join(pieces: seq<string>, sep: char): (r: string)
    requires |pieces| > 0
    decreases |pieces|
  {
    if |pieces| == 1 then pieces[0]
    else pieces[0] + [sep] + Join(pieces[1..], sep)
  }

  /** Prepending a character to the first piece prepends it to the joined text. */
  lemma JoinExtendFirst(c: char, pieces: seq<string>, sep: char)
    requires |pieces| > 0
    ensures Join([[c] + pieces[0]] + pieces[1..], sep) == [c] + Join(pieces, sep)
  {
    var r := [[c] + pieces[0]] + pieces[1..];
    assert r[1..] == pieces[1..];
  }

  /** Prepending an empty piece prepends a separator to the joined text. */
  lemma JoinEmptyFirst(pieces: seq<string>, sep: char)
    requires |pieces| > 0
    ensures Join([""] + pieces, sep) == [sep] + Join(pieces, sep)
  {
    assert ([""] + pieces)[1..] == pieces;
  }

  /** Splitting loses nothing: joining the pieces restores the text. */
  lemma {:induction false} SplitJoin(s: string, sep: char)
    ensures Join(Split(s, sep), sep) == s
    decreases |s|
  {
    if s != [] {
      var rest := Split(s[1..], sep);
      SplitJoin(s[1..], sep);
      if s[0] == sep {
        assert Split(s, sep) == [""] + rest;
        JoinEmptyFirst(rest, sep);
      } else {
        assert Split(s, sep) == [[s[0]] + rest[0]] + rest[1..];
        JoinExtendFirst(s[0], rest, sep);
      }
      assert [s[0]] + s[1..] == s;
    }
  }

  /** No piece contains the separator. */
  lemma {:induction false} SplitPiecesFree(s: string, sep: char)
    ensures forall k :: 0 <= k < |Split(s, sep)| ==> sep !in Split(s, sep)[k]
    decreases |s|
  {
    if s != [] {
      var rest := Split(s[1..], sep);
      var r := Split(s, sep);
      SplitPiecesFree(s[1..], sep);
      if s[0] != sep {
        forall k | 0 <= k < |r| ensures sep !in r[k] {
          if k > 0 { assert r[k] == rest[k]; }
        }
      } else {
        assert r[1..] == rest;
      }
    }
  }

  /** The first piece is the longest separator-free prefix of `s`. */
  lemma {:induction false} SplitHead(s: string, sep: char)
    ensures var h := Split(s, sep)[0];
      |h| <= |s| && h == s[..|h|] && sep !in h && (|h| == |s| || s[|h|] == sep)
    decreases |s|
  {
    if s != [] {
      SplitHead(s[1..], sep);
      var rest := Split(s[1..], sep);
      if s[0] != sep {
        var h := [s[0]] + rest[0];
        assert Split(s, sep)[0] == h;
        assert s[..|h|] == [s[0]] + s[1..][..|rest[0]|];
        assert |h| < |s| ==> s[|h|] == s[1..][|rest[0]|];
      }
    }
  }

  /** Text up to the first separator becomes the first piece; the rest is split on its own. */
  lemma {:induction false} SplitAtFirst(u: string, sep: char, v: string)
    requires sep !in u
    ensures Split(u + [sep] + v, sep) == [u] + Split(v, sep)
    decreases |u|
  {
    if u == [] {
      assert u + [sep] + v == [sep] + v;
      assert ([sep] + v)[1..] == v;
    } else {
      var s := u + [sep] + v;
      assert s[1..] == u[1..] + [sep] + v;
      SplitAtFirst(u[1..], sep, v);
      assert [u[0]] + u[1..] == u;
    }
  }

  /** The index of the first `c` in `s`, or `|s|` when there is none. */
  function IndexOf(s: string, c: char): (i: nat)
    ensures i <= |s| && c !in s[..i]
    ensures i < |s| ==> s[i] == c
    ensures c in s ==> i < |s|
    decreases |s|
  {
    if s == [] then 0
    else if s[0] == c then 0
    else
      assert s[..1 + IndexOf(s[1..], c)] == [s[0]] + s[1..][..IndexOf(s[1..], c)];
      1 + IndexOf(s[1..], c)
  }

  /** After the first separator at `i`, the second piece is the first piece of the rest. */
  lemma SplitSecondPiece(s: string, sep: char, i: nat)
    requires i < |s| && s[i] == sep && sep !in s[..i]
    ensures |Split(s, sep)| > 1 && Split(s, sep)[1] == Split(s[i + 1..], sep)[0]
  {
    var u, v := s[..i], s[i + 1..];
    assert s == u + [sep] + v;
    SplitAtFirst(u, sep, v);
  }

  /** A text that holds a copy of `part` holds at least as many copies of each character. */
  lemma ContainsCharBound(s: string, part: string, c: char)
    requires Contains(s, part)
    ensures multiset(part)[c] <= multiset(s)[c]
  {
    var i: nat :| i <= |s| && OccursAt(s, part, i);
    assert s == s[..i] + part + s[i + |part|..];
    assert multiset(s) == multiset(s[..i]) + multiset(part) + multiset(s[i + |part|..]);
  }
}
