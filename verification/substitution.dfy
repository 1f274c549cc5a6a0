/** The substitution step of the mutator: a case-insensitive, literal,
    non-overlapping, left-to-right replace-all, which is what a
    case-insensitive regular expression built from a pattern without
    metacharacters does under `replace_all`. Case folding is ASCII. */
module Substitution {
  import opened Text

  /** The gate of the mutator: both sides upper-cased, then `contains`.
      It holds exactly when the pattern matches, ignoring case, at some
      offset of the text. */
  predicate ContainsIgnoringCase(text: string, pattern: string)
    ensures ContainsIgnoringCase(text, pattern) <==> exists i :: MatchesAt(text, pattern, i)
  {
    UpperContainsIffMatches(text, pattern);
    Contains(Upper(text), Upper(pattern))
  }

  /** `pattern` matches the front of `s`, ignoring case. */
  predicate MatchesPrefix(s: string, pattern: string) {
    |pattern| <= |s| && Upper(s[..|pattern|]) == Upper(pattern)
  }

  /** `pattern` matches `text` at offset `i`, ignoring case. */
  predicate MatchesAt(text: string, pattern: string, i: int) {
    0 <= i <= |text| && MatchesPrefix(text[i..], pattern)
  }

  lemma UpperContainsIffMatches(text: string, pattern: string)
    ensures Contains(Upper(text), Upper(pattern)) <==> exists i :: MatchesAt(text, pattern, i)
  {
    var n := |pattern|;
    ContainsIffOccurs(Upper(text), Upper(pattern));
    forall i ensures OccursAt(Upper(text), Upper(pattern), i) <==> MatchesAt(text, pattern, i) {
      if 0 <= i && i + n <= |text| {
        UpperSlice(text, i, i + n);
        assert text[i..][..n] == text[i..i + n];
      }
    }
  }

  /** An empty pattern matches at every character boundary, the end
      included, so the replacement lands before each character and once
      more at the end. */
  function InsertEverywhere(s: string, replacement: string): (r: string)
    decreases |s|
  {
    if |s| == 0 then replacement
    else replacement + [s[0]] + InsertEverywhere(s[1..], replacement)
  }

  /** Every non-overlapping case-insensitive occurrence of `pattern`,
      scanning left to right, replaced by `replacement` verbatim. A text in
      which the pattern matches at no offset comes back unchanged. */
  function ReplaceAll(s: string, pattern: string, replacement: string): (r: string)
    ensures (forall i :: !MatchesAt(s, pattern, i)) ==> r == s
    decreases |s|
  {
    if |pattern| == 0 then
      assert MatchesAt(s, pattern, 0) by {
        assert s[0..][..0] == [];
      }
      InsertEverywhere(s, replacement)
    else if |s| == 0 then []
    else if MatchesPrefix(s, pattern) then
      assert MatchesAt(s, pattern, 0) by {
        assert s[0..] == s;
      }
      replacement + ReplaceAll(s[|pattern|..], pattern, replacement)
    else
      NoMatchInTail(s, pattern);
      [s[0]] + ReplaceAll(s[1..], pattern, replacement)
  }

  /** A text without a match has none in its tail. */
  lemma NoMatchInTail(s: string, pattern: string)
    requires |s| > 0
    ensures (forall i :: !MatchesAt(s, pattern, i)) ==> forall i :: !MatchesAt(s[1..], pattern, i)
  {
    forall i | MatchesAt(s[1..], pattern, i) ensures MatchesAt(s, pattern, i + 1) {
      assert s[1..][i..] == s[i + 1..];
    }
  }

  /** `ps` lists positions at or after `from` in increasing order, each
      leaving room for `n` characters before the next one and before the
      end of `s`. */
  predicate Separated(s: string, ps: seq<int>, n: nat, from: int)
    decreases |ps|
  {
    && 0 <= from <= |s|
    && (|ps| > 0 ==> && from <= ps[0] && ps[0] + n <= |s|
                     && (|ps| > 1 ==> ps[0] < ps[1])
                     && Separated(s, ps[1..], n, ps[0] + n))
  }

  /** Every listed position lies in range, and after the first one. */
  lemma {:induction false} SeparatedBounds(s: string, ps: seq<int>, n: nat, from: int)
    requires Separated(s, ps, n, from)
    ensures forall k :: 0 <= k < |ps| ==> from <= ps[k] && ps[k] + n <= |s|
    ensures forall k :: 0 < k < |ps| ==> ps[0] < ps[k]
    decreases |ps|
  {
    if |ps| > 0 {
      var tail := ps[1..];
      SeparatedBounds(s, tail, n, ps[0] + n);
      assert forall k :: 0 < k < |ps| ==> ps[k] == tail[k - 1];
    }
  }

  /** Position `i` lies strictly inside one of the `n`-character stretches
      starting at the positions in `ps`. */
  predicate Covered(ps: seq<int>, n: nat, i: int) {
    exists k :: 0 <= k < |ps| && ps[k] < i < ps[k] + n
  }

  /** Leftmost-first selection from a set of match positions `ms`: every
      listed position is a match, and every match at or after `from` is
      listed or starts inside a listed one. */
  predicate Leftmost(ms: set<int>, ps: seq<int>, n: nat, from: int) {
    && (forall k :: 0 <= k < |ps| ==> ps[k] in ms)
    && (forall i :: i in ms && from <= i ==> i in ps || Covered(ps, n, i))
  }

  /** Every offset at which `pattern` matches `text`, ignoring case. */
  function MatchSet(text: string, pattern: string): (ms: set<int>)
    ensures forall i :: i in ms <==> MatchesAt(text, pattern, i)
  {
    set i | 0 <= i <= |text| && MatchesAt(text, pattern, i)
  }

  /** The leftmost-first, non-overlapping case-insensitive matches of
      `pattern` in `s` from `from` on, as `replace_all` finds them. */
  predicate LeftmostFirst(s: string, pattern: string, ps: seq<int>, from: int) {
    && Separated(s, ps, |pattern|, from)
    && Leftmost(MatchSet(s, pattern), ps, |pattern|, from)
  }

  /** The reference substitution: the text from `from` on, with the `n`
      characters at each listed position swapped for `replacement`. */
  function Splice(s: string, ps: seq<int>, n: nat, replacement: string, from: int): (r: string)
    requires Separated(s, ps, n, from)
    ensures |ps| == 0 ==> r == s[from..]
    decreases |ps|
  {
    if |ps| == 0 then s[from..]
    else
      SeparatedTail(s, ps, n, from);
      s[from..ps[0]] + replacement + Splice(s, ps[1..], n, replacement, ps[0] + n)
  }

  /** The facts about a list's head and tail that the splice proofs use. */
  lemma SeparatedTail(s: string, ps: seq<int>, n: nat, from: int)
    requires Separated(s, ps, n, from) && |ps| > 0
    ensures from <= ps[0] && ps[0] + n <= |s|
    ensures Separated(s, ps[1..], n, ps[0] + n)
    ensures forall k :: 0 <= k < |ps[1..]| ==> ps[0] < ps[1..][k]
    ensures |ps| > 1 ==> ps[0] < ps[1] && ps[1] + n <= |s|
  {
    SeparatedBounds(s, ps, n, from);
    assert forall k :: 0 <= k < |ps[1..]| ==> ps[1..][k] == ps[k + 1];
  }

  /** The leftmost-first matches from `from` on, found greedily: a match
      at `from` is taken and the scan resumes after it (one character on,
      for the empty pattern); otherwise the scan moves one character on. */
  function MatchPositions(s: string, pattern: string, from: int): (ps: seq<int>)
    requires 0 <= from <= |s|
    ensures LeftmostFirst(s, pattern, ps, from)
    decreases |s| - from
  {
    var n := |pattern|;
    var ms := MatchSet(s, pattern);
    if from !in ms then
      if from == |s| then
        assert forall i :: i in ms ==> i <= |s|;
        []
      else
        var rest := MatchPositions(s, pattern, from + 1);
        SkipUnmatched(ms, rest, n, from);
        rest
    else if n == 0 && from == |s| then
      assert forall i :: i in ms ==> i <= |s|;
      assert [from][0] == from;
      [from]
    else
      var next := if n == 0 then from + 1 else from + n;
      var rest := MatchPositions(s, pattern, next);
      PrependMatch(ms, rest, n, from, next);
      PrependSeparated(s, rest, n, from, next);
      [from] + rest
  }

  /** A position that is no match may be dropped from the front of the
      range a selection describes. */
  lemma SkipUnmatched(ms: set<int>, ps: seq<int>, n: nat, from: int)
    requires from !in ms && Leftmost(ms, ps, n, from + 1)
    ensures Leftmost(ms, ps, n, from)
  {
  }

  /** A match at `from` goes in front of the selection after it. */
  lemma PrependMatch(ms: set<int>, rest: seq<int>, n: nat, from: int, next: int)
    requires from in ms && next == (if n == 0 then from + 1 else from + n)
    requires Leftmost(ms, rest, n, next)
    ensures Leftmost(ms, [from] + rest, n, from)
  {
    var ps := [from] + rest;
    assert forall k :: 1 <= k < |ps| ==> ps[k] == rest[k - 1];
    forall i | i in ms && from <= i
      ensures i in ps || Covered(ps, n, i)
    {
      if i == from {
        assert ps[0] == i;
      } else if i < next {
        assert ps[0] < i < ps[0] + n;
      } else if i in rest {
      } else {
        var k :| 0 <= k < |rest| && rest[k] < i < rest[k] + n;
        assert ps[k + 1] == rest[k];
      }
    }
  }

  lemma PrependSeparated(s: string, rest: seq<int>, n: nat, from: int, next: int)
    requires 0 <= from && from + n <= |s| && next == (if n == 0 then from + 1 else from + n)
    requires Separated(s, rest, n, next)
    ensures Separated(s, [from] + rest, n, from)
  {
    var ps := [from] + rest;
    assert forall k :: 1 <= k < |ps| ==> ps[k] == rest[k - 1];
  }

  /** A match at `from` is the first position selected. */
  lemma FirstListed(s: string, ms: set<int>, ps: seq<int>, n: nat, from: int)
    requires Separated(s, ps, n, from) && Leftmost(ms, ps, n, from)
    requires from in ms
    ensures |ps| > 0 && ps[0] == from
  {
    SeparatedBounds(s, ps, n, from);
    assert from in ps || Covered(ps, n, from);
    var k :| 0 <= k < |ps| && ps[k] == from;
    assert ps[0] <= ps[k];
  }

  /** Past a match selected at `from`, the rest of the list is the
      selection for what follows it. */
  lemma DropFirstListed(s: string, ms: set<int>, ps: seq<int>, n: nat, from: int, next: int)
    requires Separated(s, ps, n, from) && Leftmost(ms, ps, n, from)
    requires |ps| > 0 && ps[0] == from
    requires next == (if n == 0 then from + 1 else from + n)
    ensures Leftmost(ms, ps[1..], n, next)
  {
    var tail := ps[1..];
    SeparatedTail(s, ps, n, from);
    assert forall k :: 0 <= k < |tail| ==> tail[k] == ps[k + 1];
    forall i | i in ms && next <= i
      ensures i in tail || Covered(tail, n, i)
    {
      assert i in ps || Covered(ps, n, i);
      if i in ps {
        var k :| 0 <= k < |ps| && ps[k] == i;
        assert k > 0;
        assert tail[k - 1] == i;
      } else {
        var k :| 0 <= k < |ps| && ps[k] < i < ps[k] + n;
        assert k > 0;
        assert tail[k - 1] < i < tail[k - 1] + n;
      }
    }
  }

  /** Splicing past a character that no listed position starts at keeps
      it. */
  lemma SpliceSkip(s: string, ps: seq<int>, n: nat, replacement: string, from: int)
    requires Separated(s, ps, n, from) && from < |s|
    requires |ps| == 0 || ps[0] > from
    ensures Separated(s, ps, n, from + 1)
    ensures Splice(s, ps, n, replacement, from) == [s[from]] + Splice(s, ps, n, replacement, from + 1)
  {
    if |ps| > 0 {
      var rest := Splice(s, ps[1..], n, replacement, ps[0] + n);
      var kept := s[from + 1..ps[0]];
      assert s[from..ps[0]] == [s[from]] + kept;
      assert Splice(s, ps, n, replacement, from + 1) == kept + replacement + rest;
      assert Splice(s, ps, n, replacement, from) == ([s[from]] + kept) + replacement + rest;
    } else {
      assert s[from..] == [s[from]] + s[from + 1..];
    }
  }

  /** Splicing at a listed position puts the replacement first. */
  lemma SpliceTake(s: string, ps: seq<int>, n: nat, replacement: string, from: int)
    requires Separated(s, ps, n, from) && |ps| > 0 && ps[0] == from
    ensures Separated(s, ps[1..], n, from + n)
    ensures Splice(s, ps, n, replacement, from) == replacement + Splice(s, ps[1..], n, replacement, from + n)
  {
    SeparatedTail(s, ps, n, from);
    assert s[from..from] == [];
  }

  /** The empty pattern matches at every offset, the end included. */
  lemma EmptyMatchesEverywhere(s: string, pattern: string, i: int)
    requires |pattern| == 0 && 0 <= i <= |s|
    ensures i in MatchSet(s, pattern)
  {
    assert s[i..][..0] == [];
  }

  /** With the empty pattern, the replacement goes in at every selected
      position, which is every position. */
  lemma {:induction false} EmptyPatternSplice(s: string, ms: set<int>, replacement: string, ps: seq<int>,
                                              from: int)
    requires forall i :: 0 <= i <= |s| ==> i in ms
    requires Separated(s, ps, 0, from) && Leftmost(ms, ps, 0, from)
    ensures InsertEverywhere(s[from..], replacement) == Splice(s, ps, 0, replacement, from)
    decreases |s| - from
  {
    FirstListed(s, ms, ps, 0, from);
    SeparatedTail(s, ps, 0, from);
    if from == |s| {
      InsertAtEnd(s, replacement, ps);
    } else {
      DropFirstListed(s, ms, ps, 0, from, from + 1);
      EmptyPatternSplice(s, ms, replacement, ps[1..], from + 1);
      InsertStep(s, replacement, ps, from);
    }
  }

  lemma InsertAtEnd(s: string, replacement: string, ps: seq<int>)
    requires Separated(s, ps, 0, |s|) && |ps| > 0 && ps[0] == |s|
    ensures InsertEverywhere(s[|s|..], replacement) == Splice(s, ps, 0, replacement, |s|)
  {
    SpliceTake(s, ps, 0, replacement, |s|);
    SeparatedTail(s, ps, 0, |s|);
    assert s[|s|..] == [];
  }

  lemma InsertStep(s: string, replacement: string, ps: seq<int>, from: int)
    requires 0 <= from < |s| && Separated(s, ps, 0, from) && |ps| > 0 && ps[0] == from
    requires Separated(s, ps[1..], 0, from + 1)
    requires InsertEverywhere(s[from + 1..], replacement) == Splice(s, ps[1..], 0, replacement, from + 1)
    ensures InsertEverywhere(s[from..], replacement) == Splice(s, ps, 0, replacement, from)
  {
    var tail := ps[1..];
    SpliceTake(s, ps, 0, replacement, from);
    assert |tail| == 0 || tail[0] > from by {
      if |tail| > 0 {
        assert tail[0] == ps[1];
      }
    }
    SpliceSkip(s, tail, 0, replacement, from);
    var t := s[from..];
    assert t[1..] == s[from + 1..];
    assert InsertEverywhere(t, replacement) == replacement + [s[from]] + InsertEverywhere(t[1..], replacement);
  }

  /** The left-to-right scan over the match positions `ms` with a
      non-empty match length `n`, from offset `from` on: a match is
      replaced and skipped, any other character is kept. */
  function Scan(s: string, ms: set<int>, n: nat, replacement: string, from: int): string
    requires n > 0 && 0 <= from <= |s|
    decreases |s| - from
  {
    if from == |s| then []
    else if from in ms && from + n <= |s| then replacement + Scan(s, ms, n, replacement, from + n)
    else [s[from]] + Scan(s, ms, n, replacement, from + 1)
  }

  /** The scan is the splice over any leftmost-first selection from the
      same match positions. */
  lemma {:induction false} ScanIsSplice(s: string, ms: set<int>, n: nat, replacement: string, ps: seq<int>,
                                        from: int)
    requires n > 0 && Separated(s, ps, n, from) && Leftmost(ms, ps, n, from)
    ensures Scan(s, ms, n, replacement, from) == Splice(s, ps, n, replacement, from)
    decreases |s| - from, 1
  {
    if from == |s| {
      ScanAtEnd(s, ms, n, replacement, ps);
    } else if from in ms {
      ScanMatched(s, ms, n, replacement, ps, from);
    } else {
      ScanUnmatched(s, ms, n, replacement, ps, from);
    }
  }

  lemma {:induction false} ScanMatched(s: string, ms: set<int>, n: nat, replacement: string, ps: seq<int>,
                                       from: int)
    requires n > 0 && Separated(s, ps, n, from) && Leftmost(ms, ps, n, from)
    requires from < |s| && from in ms
    ensures Scan(s, ms, n, replacement, from) == Splice(s, ps, n, replacement, from)
    decreases |s| - from, 0
  {
    FirstListed(s, ms, ps, n, from);
    DropFirstListed(s, ms, ps, n, from, from + n);
    ScanIsSplice(s, ms, n, replacement, ps[1..], from + n);
    ScanTakeSplice(s, ms, n, replacement, ps, from);
  }

  lemma {:induction false} ScanUnmatched(s: string, ms: set<int>, n: nat, replacement: string, ps: seq<int>,
                                         from: int)
    requires n > 0 && Separated(s, ps, n, from) && Leftmost(ms, ps, n, from)
    requires from < |s| && from !in ms
    ensures Scan(s, ms, n, replacement, from) == Splice(s, ps, n, replacement, from)
    decreases |s| - from, 0
  {
    UnmatchedHead(s, ms, ps, n, from);
    SkipForward(ms, ps, n, from);
    SpliceSkip(s, ps, n, replacement, from);
    ScanIsSplice(s, ms, n, replacement, ps, from + 1);
    ScanSkipSplice(s, ms, n, replacement, ps, from);
  }

  lemma ScanAtEnd(s: string, ms: set<int>, n: nat, replacement: string, ps: seq<int>)
    requires n > 0 && Separated(s, ps, n, |s|)
    ensures Scan(s, ms, n, replacement, |s|) == Splice(s, ps, n, replacement, |s|) == []
  {
    if |ps| > 0 {
      SeparatedTail(s, ps, n, |s|);
    }
    assert s[|s|..] == [];
  }

  /** A position that is no match is not the first one selected. */
  lemma UnmatchedHead(s: string, ms: set<int>, ps: seq<int>, n: nat, from: int)
    requires Separated(s, ps, n, from) && Leftmost(ms, ps, n, from) && from !in ms
    ensures |ps| == 0 || ps[0] > from
  {
    if |ps| > 0 {
      assert ps[0] in ms;
      SeparatedTail(s, ps, n, from);
    }
  }

  lemma ScanTakeSplice(s: string, ms: set<int>, n: nat, replacement: string, ps: seq<int>, from: int)
    requires n > 0 && from in ms && Separated(s, ps, n, from) && |ps| > 0 && ps[0] == from
    requires from + n <= |s| && Separated(s, ps[1..], n, from + n)
    requires Scan(s, ms, n, replacement, from + n) == Splice(s, ps[1..], n, replacement, from + n)
    ensures Scan(s, ms, n, replacement, from) == Splice(s, ps, n, replacement, from)
  {
    SpliceTake(s, ps, n, replacement, from);
  }

  lemma ScanSkipSplice(s: string, ms: set<int>, n: nat, replacement: string, ps: seq<int>, from: int)
    requires n > 0 && 0 <= from < |s| && from !in ms && Separated(s, ps, n, from) && (|ps| == 0 || ps[0] > from)
    requires Separated(s, ps, n, from + 1)
    requires Scan(s, ms, n, replacement, from + 1) == Splice(s, ps, n, replacement, from + 1)
    ensures Scan(s, ms, n, replacement, from) == Splice(s, ps, n, replacement, from)
  {
    SpliceSkip(s, ps, n, replacement, from);
  }

  /** The replace-all of the text from `from` on is the scan over the
      pattern's match positions. */
  lemma {:induction false} ReplaceAllIsScan(s: string, pattern: string, replacement: string, from: int)
    requires |pattern| > 0 && 0 <= from <= |s|
    ensures ReplaceAll(s[from..], pattern, replacement) == Scan(s, MatchSet(s, pattern), |pattern|, replacement, from)
    decreases |s| - from
  {
    if from == |s| {
      assert s[from..] == [];
    } else if from in MatchSet(s, pattern) && from + |pattern| <= |s| {
      ReplaceAllIsScan(s, pattern, replacement, from + |pattern|);
      ScanTake(s, pattern, replacement, from);
    } else {
      ReplaceAllIsScan(s, pattern, replacement, from + 1);
      ScanKeep(s, pattern, replacement, from);
    }
  }

  lemma ScanTake(s: string, pattern: string, replacement: string, from: int)
    requires |pattern| > 0 && 0 <= from < |s| && from in MatchSet(s, pattern) && from + |pattern| <= |s|
    requires ReplaceAll(s[from + |pattern|..], pattern, replacement)
             == Scan(s, MatchSet(s, pattern), |pattern|, replacement, from + |pattern|)
    ensures ReplaceAll(s[from..], pattern, replacement) == Scan(s, MatchSet(s, pattern), |pattern|, replacement, from)
  {
    ReplaceAllStep(s, pattern, replacement, from);
  }

  lemma ScanKeep(s: string, pattern: string, replacement: string, from: int)
    requires |pattern| > 0 && 0 <= from < |s|
    requires !(from in MatchSet(s, pattern) && from + |pattern| <= |s|)
    requires ReplaceAll(s[from + 1..], pattern, replacement)
             == Scan(s, MatchSet(s, pattern), |pattern|, replacement, from + 1)
    ensures ReplaceAll(s[from..], pattern, replacement) == Scan(s, MatchSet(s, pattern), |pattern|, replacement, from)
  {
    ReplaceAllStep(s, pattern, replacement, from);
  }

  /** One step of the replace-all at offset `from`: a match there is
      replaced and skipped, otherwise one character is kept. */
  lemma ReplaceAllStep(s: string, pattern: string, replacement: string, from: int)
    requires |pattern| > 0 && 0 <= from < |s|
    ensures from in MatchSet(s, pattern)
            ==> && from + |pattern| <= |s|
                && ReplaceAll(s[from..], pattern, replacement)
                   == replacement + ReplaceAll(s[from + |pattern|..], pattern, replacement)
    ensures from !in MatchSet(s, pattern)
            ==> ReplaceAll(s[from..], pattern, replacement) == [s[from]] + ReplaceAll(s[from + 1..], pattern, replacement)
  {
    var t := s[from..];
    assert t[1..] == s[from + 1..];
    assert from in MatchSet(s, pattern) <==> MatchesPrefix(t, pattern);
    if MatchesPrefix(t, pattern) {
      assert t[|pattern|..] == s[from + |pattern|..];
    }
  }

  lemma SkipForward(ms: set<int>, ps: seq<int>, n: nat, from: int)
    requires Leftmost(ms, ps, n, from)
    ensures Leftmost(ms, ps, n, from + 1)
  {
  }

  /** The replace-all is the reference splice: every leftmost-first,
      non-overlapping case-insensitive match, and no other text, is
      swapped for the replacement. Such a list always exists
      (`MatchPositions`), and the result does not depend on which list
      meeting the description is taken. */
  lemma ReplaceAllIsSplice(s: string, pattern: string, replacement: string, ps: seq<int>)
    requires LeftmostFirst(s, pattern, ps, 0)
    ensures ReplaceAll(s, pattern, replacement) == Splice(s, ps, |pattern|, replacement, 0)
  {
    assert s[0..] == s;
    if |pattern| == 0 {
      forall i | 0 <= i <= |s| ensures i in MatchSet(s, pattern) {
        EmptyMatchesEverywhere(s, pattern, i);
      }
      EmptyPatternSplice(s, MatchSet(s, pattern), replacement, ps, 0);
    } else {
      ReplaceAllIsScan(s, pattern, replacement, 0);
      ScanIsSplice(s, MatchSet(s, pattern), |pattern|, replacement, ps, 0);
    }
  }

  /** With the empty pattern every offset, the end included, is selected,
      so the replacement goes in before each character and once more at
      the end. */
  lemma {:induction false} EmptyPatternSelectsEveryOffset(s: string, pattern: string, ps: seq<int>)
    requires |pattern| == 0 && LeftmostFirst(s, pattern, ps, 0)
    ensures |ps| == |s| + 1
    ensures forall k :: 0 <= k < |ps| ==> ps[k] == k
  {
    forall i | 0 <= i <= |s| ensures i in MatchSet(s, pattern) {
      EmptyMatchesEverywhere(s, pattern, i);
    }
    EveryOffsetSelected(s, MatchSet(s, pattern), ps, 0);
  }

  lemma {:induction false} EveryOffsetSelected(s: string, ms: set<int>, ps: seq<int>, from: int)
    requires forall i :: 0 <= i <= |s| ==> i in ms
    requires Separated(s, ps, 0, from) && Leftmost(ms, ps, 0, from)
    ensures |ps| == |s| - from + 1
    ensures forall k :: 0 <= k < |ps| ==> ps[k] == from + k
    decreases |s| - from
  {
    FirstListed(s, ms, ps, 0, from);
    SeparatedTail(s, ps, 0, from);
    if from < |s| {
      DropFirstListed(s, ms, ps, 0, from, from + 1);
      SpliceSkip(s, ps[1..], 0, "", from);
      EveryOffsetSelected(s, ms, ps[1..], from + 1);
      assert forall k :: 1 <= k < |ps| ==> ps[k] == ps[1..][k - 1];
    }
  }

  /** Every occurrence goes, not just the first. */
  lemma EveryOccurrenceReplaced()
    ensures ReplaceAll("aa", "a", "b") == "bb"
  {
    assert Upper("a") == "A";
    assert MatchesPrefix("aa", "a");
    assert "aa"[1..] == "a";
    assert MatchesPrefix("a", "a");
    assert "a"[1..] == [];
  }

  /** The empty pattern puts the replacement before each character and
      once more at the end. */
  lemma EmptyPatternEverywhere()
    ensures ReplaceAll("ab", "", "-") == "-a-b-"
  {
    assert "ab"[1..] == "b";
    assert "b"[1..] == [];
  }

  /** Conversely, a text in which the pattern occurs comes back holding
      the replacement. */
  lemma {:induction false} MatchYieldsReplacement(s: string, pattern: string, replacement: string)
    requires ContainsIgnoringCase(s, pattern)
    ensures Contains(ReplaceAll(s, pattern, replacement), replacement)
    decreases |s|
  {
    if |pattern| == 0 {
      if |s| == 0 {
        ContainsAtStart(replacement, []);
        assert replacement + [] == replacement;
      } else {
        ContainsAtStart(replacement, [s[0]] + InsertEverywhere(s[1..], replacement));
      }
      return;
    }
    var rest := ReplaceAll(s[|pattern|..], pattern, replacement);
    if MatchesPrefix(s, pattern) {
      ContainsAtStart(replacement, rest);
    } else {
      UpperSlice(s, 0, |pattern|);
      assert Upper(s)[..|pattern|] != Upper(pattern);
      UpperDrop(s, 1);
      MatchYieldsReplacement(s[1..], pattern, replacement);
      ContainsAppendLeft([s[0]], ReplaceAll(s[1..], pattern, replacement), replacement);
    }
  }

  /** Only the pattern's letters up to case matter: two patterns that
      agree ignoring case replace the same occurrences. */
  lemma {:induction false} PatternCaseIrrelevant(s: string, p: string, q: string, replacement: string)
    requires Upper(p) == Upper(q)
    ensures ReplaceAll(s, p, replacement) == ReplaceAll(s, q, replacement)
    decreases |s|
  {
    assert |p| == |Upper(p)| == |q|;
    if |p| > 0 && |s| > 0 {
      assert MatchesPrefix(s, p) == MatchesPrefix(s, q);
      if MatchesPrefix(s, p) {
        PatternCaseIrrelevant(s[|p|..], p, q, replacement);
      } else {
        PatternCaseIrrelevant(s[1..], p, q, replacement);
      }
    }
  }

  lemma {:induction false} InsertEverywhereUpper(s: string, replacement: string)
    ensures Upper(InsertEverywhere(s, replacement)) == InsertEverywhere(Upper(s), Upper(replacement))
    decreases |s|
  {
    if |s| > 0 {
      var rest := InsertEverywhere(s[1..], replacement);
      UpperConcat(replacement + [s[0]], rest);
      UpperConcat(replacement, [s[0]]);
      UpperDrop(s, 1);
      assert Upper(s) == [UpperChar(s[0])] + Upper(s)[1..];
      assert Upper([s[0]]) == [UpperChar(s[0])];
      InsertEverywhereUpper(s[1..], replacement);
    }
  }

  /** Substitution commutes with upper-casing: the case of the text only
      ever shows through in the characters that are kept. */
  lemma {:induction false} UpperCommutes(s: string, pattern: string, replacement: string)
    ensures Upper(ReplaceAll(s, pattern, replacement))
         == ReplaceAll(Upper(s), pattern, Upper(replacement))
    decreases |s|
  {
    if |pattern| == 0 {
      InsertEverywhereUpper(s, replacement);
    } else if |s| > 0 {
      var n := |pattern|;
      if n <= |s| {
        UpperSlice(s, 0, n);
        UpperIdempotent(s[..n]);
      }
      assert MatchesPrefix(Upper(s), pattern) == MatchesPrefix(s, pattern);
      if MatchesPrefix(s, pattern) {
        UpperConcat(replacement, ReplaceAll(s[n..], pattern, replacement));
        UpperDrop(s, n);
        assert |Upper(s)| > 0;
        UpperCommutes(s[n..], pattern, replacement);
      } else {
        UpperConcat([s[0]], ReplaceAll(s[1..], pattern, replacement));
        UpperDrop(s, 1);
        UpperCommutes(s[1..], pattern, replacement);
      }
    }
  }

  /** A text that is the pattern, up to case, becomes the replacement. */
  lemma WholeTextMatch(s: string, pattern: string, replacement: string)
    requires Upper(s) == Upper(pattern)
    ensures ReplaceAll(s, pattern, replacement) == replacement
  {
    assert s[..|pattern|] == s;
    assert s[|pattern|..] == [];
    assert replacement + [] == replacement;
  }

  /** The colour swap of the case-insensitivity test. */
  lemma ColourSwapIgnoresCase()
    ensures ReplaceAll("#FF00FF", "#ff00ff", "#00ff00") == "#00ff00"
  {
    assert Upper("#FF00FF") == "#FF00FF";
    assert Upper("#ff00ff") == "#FF00FF";
    WholeTextMatch("#FF00FF", "#ff00ff", "#00ff00");
  }
}
