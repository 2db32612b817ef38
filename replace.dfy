/**
 * Textual substitution over the saved document, with the meaning of Rust's
 * `str::replace`: every non-overlapping occurrence of the pattern, found left
 * to right, is replaced; an empty pattern matches before every character and
 * at the end. `Split` and `Join` give an independent statement of the same
 * thing: the text is cut at the matches, and the pieces are glued back
 * together with the replacement.
 */
module Replace {
  import opened Wrappers

  /** `pat` occurs in `s` starting at index `k`. */
  predicate MatchAt(s: string, k: int, pat: string) {
    0 <= k && k + |pat| <= |s| && s[k..k + |pat|] == pat
  }

  /** The result of `s.replace(from, to)`. */
  function ReplaceAll(s: string, from: string, to: string): string {
    if from == [] then Interleave(s, to) else ReplaceMatches(s, from, to)
  }

  /** An empty pattern matches before every character and once more at the end. */
  function Interleave(s: string, to: string): string
    decreases |s|
  {
    if s == [] then to else to + [s[0]] + Interleave(s[1..], to)
  }

  /** A non-empty pattern, scanning left to right: a match is replaced and skipped, any other character copied. */
  function ReplaceMatches(s: string, from: string, to: string): string
    requires |from| > 0
    decreases |s|
  {
    if |from| <= |s| && s[..|from|] == from then to + ReplaceMatches(s[|from|..], from, to)
    else if s == [] then []
    else [s[0]] + ReplaceMatches(s[1..], from, to)
  }

  /** Dropping the first character moves every later occurrence one place left. */
  lemma MatchAfterFirst(s: string, j: int, pat: string)
    requires |s| > 0 && 1 <= j
    ensures MatchAt(s, j, pat) <==> MatchAt(s[1..], j - 1, pat)
  {
    if j + |pat| <= |s| {
      assert s[1..][j - 1..j - 1 + |pat|] == s[j..j + |pat|];
    }
  }

  /** The leftmost occurrence of a non-empty pattern at or after index `i`, if any. */
  function MatchFrom(s: string, pat: string, i: nat): (r: Option<nat>)
    requires |pat| > 0 && i <= |s|
    ensures r.Some? ==> i <= r.value && r.value + |pat| <= |s|
    decreases |s| - i
  {
    if |s| - i < |pat| then None
    else if s[i..i + |pat|] == pat then Some(i)
    else MatchFrom(s, pat, i + 1)
  }

  /** The leftmost occurrence of a non-empty pattern, if any. */
  function FirstMatch(s: string, pat: string): (r: Option<nat>)
    requires |pat| > 0
    ensures r.Some? ==> r.value + |pat| <= |s|
  {
    MatchFrom(s, pat, 0)
  }

  lemma {:induction false} MatchFromSpec(s: string, pat: string, i: nat)
    requires |pat| > 0 && i <= |s|
    ensures var r := MatchFrom(s, pat, i);
      (r.Some? ==> i <= r.value && MatchAt(s, r.value, pat) && forall j :: i <= j < r.value ==> !MatchAt(s, j, pat))
      && (r.None? <==> forall j :: i <= j <= |s| ==> !MatchAt(s, j, pat))
    decreases |s| - i
  {
    if |s| - i < |pat| {
    } else if s[i..i + |pat|] == pat {
      assert MatchAt(s, i, pat);
    } else {
      MatchFromSpec(s, pat, i + 1);
    }
  }

  /** `FirstMatch` finds a match with none before it, or reports that there is none. */
  lemma FirstMatchSpec(s: string, pat: string)
    requires |pat| > 0
    ensures var r := FirstMatch(s, pat);
      (r.Some? ==> MatchAt(s, r.value, pat) && forall j :: 0 <= j < r.value ==> !MatchAt(s, j, pat))
      && (r.None? <==> forall j :: 0 <= j <= |s| ==> !MatchAt(s, j, pat))
  {
    MatchFromSpec(s, pat, 0);
  }

  function Chars(s: string): (r: seq<string>)
    ensures |r| == |s| && forall k :: 0 <= k < |s| ==> r[k] == [s[k]]
  {
    seq(|s|, k requires 0 <= k < |s| => [s[k]])
  }

  /** The pieces of `s` between the occurrences of `pat`, as Rust's `str::split` gives them. */
  function Split(s: string, pat: string): (parts: seq<string>)
    ensures |parts| > 0
  {
    if pat == [] then [[]] + Chars(s) + [[]] else SplitOn(s, pat)
  }

  /** `Split` for a non-empty pattern: the text before the leftmost match, then the pieces of what follows it. */
  function SplitOn(s: string, pat: string): (parts: seq<string>)
    requires |pat| > 0
    ensures |parts| > 0
    decreases |s|
  {
    match FirstMatch(s, pat)
    case None => [s]
    case Some(k) => [s[..k]] + SplitOn(s[k + |pat|..], pat)
  }

  /** The pieces glued together with `sep` between each two. */
  function Join(parts: seq<string>, sep: string): string
    decreases |parts|
  {
    if |parts| == 0 then []
    else if |parts| == 1 then parts[0]
    else parts[0] + sep + Join(parts[1..], sep)
  }

  /** Where the pattern does not start, the first character is copied. */
  lemma ReplaceSkipsOne(s: string, from: string, to: string)
    requires |from| > 0 && |s| > 0 && !MatchAt(s, 0, from)
    ensures ReplaceMatches(s, from, to) == [s[0]] + ReplaceMatches(s[1..], from, to)
  {
    if |from| <= |s| {
      assert s[0..|from|] == s[..|from|];
    }
  }

  /** Where the pattern starts, it is replaced and skipped. */
  lemma ReplaceTakesMatch(s: string, from: string, to: string)
    requires |from| > 0 && MatchAt(s, 0, from)
    ensures ReplaceMatches(s, from, to) == to + ReplaceMatches(s[|from|..], from, to)
  {
    assert s[0..|from|] == s[..|from|];
  }

  /** Before the first match, replacement copies the text unchanged. */
  lemma {:induction false} ReplaceCopiesPrefix(s: string, from: string, to: string, k: nat)
    requires |from| > 0 && k <= |s|
    requires forall j :: 0 <= j < k ==> !MatchAt(s, j, from)
    ensures ReplaceMatches(s, from, to) == s[..k] + ReplaceMatches(s[k..], from, to)
    decreases k
  {
    if k > 0 {
      var tail := s[1..];
      assert !MatchAt(s, 0, from);
      ReplaceSkipsOne(s, from, to);
      NoMatchInTail(s, from, k);
      ReplaceCopiesPrefix(tail, from, to, k - 1);
      PrefixSplitsOff(s, k);
      AppendAssoc([s[0]], tail[..k - 1], ReplaceMatches(s[k..], from, to));
    }
  }

  /** No match in the first `k` positions means none in the first `k - 1` positions after the first character. */
  lemma NoMatchInTail(s: string, from: string, k: nat)
    requires 0 < k <= |s|
    requires forall j :: 0 <= j < k ==> !MatchAt(s, j, from)
    ensures forall j :: 0 <= j < k - 1 ==> !MatchAt(s[1..], j, from)
  {
    forall j | 0 <= j < k - 1 ensures !MatchAt(s[1..], j, from) {
      MatchAfterFirst(s, j + 1, from);
    }
  }

  /** The first `k` characters are the first one and `k - 1` more; the rest after them is the same either way. */
  lemma PrefixSplitsOff(s: string, k: nat)
    requires 0 < k <= |s|
    ensures s[..k] == [s[0]] + s[1..][..k - 1] && s[1..][k - 1..] == s[k..]
  {
  }

  /** Text in which the (non-empty) pattern does not occur is left unchanged. */
  lemma ReplaceWithoutMatch(s: string, from: string, to: string)
    requires |from| > 0
    requires forall j :: 0 <= j <= |s| ==> !MatchAt(s, j, from)
    ensures ReplaceMatches(s, from, to) == s
  {
    ReplaceCopiesPrefix(s, from, to, |s|);
    assert s[..|s|] == s;
    assert s[|s|..] == [];
  }

  /** With an empty pattern the replacement goes before every character and at the end. */
  lemma {:induction false} JoinCharsEmpty(s: string, to: string)
    ensures Interleave(s, to) == to + Join(Chars(s) + [[]], to)
    decreases |s|
  {
    if s != [] {
      JoinCharsEmpty(s[1..], to);
      assert (Chars(s) + [[]])[1..] == Chars(s[1..]) + [[]];
    }
  }

  /** Replacing at the leftmost match: the text before it, the replacement, then the rest replaced. */
  lemma ReplaceAtFirstMatch(s: string, from: string, to: string, k: nat)
    requires |from| > 0 && FirstMatch(s, from) == Some(k)
    ensures ReplaceMatches(s, from, to) == s[..k] + to + ReplaceMatches(s[k + |from|..], from, to)
  {
    FirstMatchSpec(s, from);
    ReplaceCopiesPrefix(s, from, to, k);
    MatchShifts(s, k, from);
    ReplaceTakesMatch(s[k..], from, to);
    AppendAssoc(s[..k], to, ReplaceMatches(s[k + |from|..], from, to));
  }

  /** A match at `k` is a match at the start of the text from `k` on, and what follows it is the same either way. */
  lemma MatchShifts(s: string, k: nat, pat: string)
    requires MatchAt(s, k, pat)
    ensures MatchAt(s[k..], 0, pat) && s[k..][|pat|..] == s[k + |pat|..]
  {
    assert s[k..][0..|pat|] == s[k..k + |pat|];
  }

  /** For a non-empty pattern, replacing is splitting at the matches and joining with the replacement. */
  lemma {:induction false} ReplaceMatchesIsSplitJoin(s: string, from: string, to: string)
    requires |from| > 0
    ensures ReplaceMatches(s, from, to) == Join(SplitOn(s, from), to)
    decreases |s|
  {
    match FirstMatch(s, from)
    case None =>
      FirstMatchSpec(s, from);
      ReplaceWithoutMatch(s, from, to);
    case Some(k) =>
      var rest := s[k + |from|..];
      ReplaceAtFirstMatch(s, from, to, k);
      ReplaceMatchesIsSplitJoin(rest, from, to);
      JoinCons(s[..k], SplitOn(rest, from), to);
  }

  /** Joining a piece in front of at least one more. */
  lemma JoinCons(head: string, parts: seq<string>, sep: string)
    requires |parts| > 0
    ensures Join([head] + parts, sep) == head + sep + Join(parts, sep)
  {
    assert ([head] + parts)[1..] == parts;
  }

  /** Replacing is splitting at the matches and joining with the replacement. */
  lemma ReplaceIsSplitJoin(s: string, from: string, to: string)
    ensures ReplaceAll(s, from, to) == Join(Split(s, from), to)
  {
    if from == [] {
      JoinCharsEmpty(s, to);
      JoinCons([], Chars(s) + [[]], to);
      assert [[]] + Chars(s) + [[]] == [[]] + (Chars(s) + [[]]);
    } else {
      ReplaceMatchesIsSplitJoin(s, from, to);
    }
  }

  /** Gluing the pieces back with the pattern itself restores the text: only the matched spans are cut out. */
  lemma JoinSplitRestores(s: string, pat: string)
    ensures Join(Split(s, pat), pat) == s
  {
    ReplaceIsSplitJoin(s, pat, pat);
    ReplaceWithItself(s, pat);
  }

  /** Replacing a pattern by itself changes nothing. */
  lemma ReplaceWithItself(s: string, pat: string)
    ensures ReplaceAll(s, pat, pat) == s
  {
    if pat == [] {
      InterleaveEmpty(s);
    } else {
      ReplaceMatchesWithItself(s, pat);
    }
  }

  lemma {:induction false} InterleaveEmpty(s: string)
    ensures Interleave(s, []) == s
    decreases |s|
  {
    if s != [] {
      InterleaveEmpty(s[1..]);
    }
  }

  lemma {:induction false} ReplaceMatchesWithItself(s: string, pat: string)
    requires |pat| > 0
    ensures ReplaceMatches(s, pat, pat) == s
    decreases |s|
  {
    if |pat| <= |s| && s[..|pat|] == pat {
      ReplaceMatchesWithItself(s[|pat|..], pat);
      assert s == s[..|pat|] + s[|pat|..];
    } else if s != [] {
      ReplaceMatchesWithItself(s[1..], pat);
    }
  }

  /** A match with none before it is the leftmost one. */
  lemma FirstMatchIs(s: string, pat: string, k: nat)
    requires |pat| > 0 && MatchAt(s, k, pat)
    requires forall j :: 0 <= j < k ==> !MatchAt(s, j, pat)
    ensures FirstMatch(s, pat) == Some(k)
  {
    FirstMatchSpec(s, pat);
  }

  /** Cutting the text just after a match keeps the occurrences that end before the cut. */
  lemma MatchInPrefix(s: string, pat: string, n: nat, j: nat)
    requires n <= |s| && j + |pat| <= n
    ensures MatchAt(s[..n], j, pat) <==> MatchAt(s, j, pat)
  {
    assert s[..n][j..j + |pat|] == s[j..j + |pat|];
  }

  /** A piece that ends at the leftmost match has that match as its own first one. */
  lemma PieceEndsAtFirstMatch(s: string, pat: string, k: nat)
    requires |pat| > 0 && FirstMatch(s, pat) == Some(k)
    ensures FirstMatch(s[..k] + pat, pat) == Some(k)
  {
    FirstMatchSpec(s, pat);
    var n := k + |pat|;
    var head := s[..k] + pat;
    assert head == s[..n];
    forall j | 0 <= j < k ensures !MatchAt(head, j, pat) {
      MatchInPrefix(s, pat, n, j);
    }
    MatchInPrefix(s, pat, n, k);
    FirstMatchIs(head, pat, k);
  }

  /**
   * The cut points are the leftmost non-overlapping matches: each piece but the
   * last is followed by its first match, and the last piece contains none.
   */
  lemma {:induction false} SplitAtLeftmostMatches(s: string, pat: string)
    requires |pat| > 0
    ensures forall i :: 0 <= i < |SplitOn(s, pat)| - 1 ==>
      FirstMatch(SplitOn(s, pat)[i] + pat, pat) == Some(|SplitOn(s, pat)[i]|)
    ensures FirstMatch(SplitOn(s, pat)[|SplitOn(s, pat)| - 1], pat).None?
    decreases |s|
  {
    match FirstMatch(s, pat)
    case None =>
    case Some(k) =>
      var rest := s[k + |pat|..];
      var parts := SplitOn(s, pat);
      var later := SplitOn(rest, pat);
      assert parts == [s[..k]] + later;
      SplitAtLeftmostMatches(rest, pat);
      PieceEndsAtFirstMatch(s, pat, k);
      forall i | 1 <= i < |parts| - 1
        ensures FirstMatch(parts[i] + pat, pat) == Some(|parts[i]|)
      {
        assert parts[i] == later[i - 1];
      }
      assert parts[|parts| - 1] == later[|later| - 1];
  }
}
