/**
 * The loop `while (matcher.find()) { ... }` over one line, whatever the
 * pattern: `find()` tries the pattern at successive positions, starting where
 * the previous match ended, and reports each match it finds. The pattern is
 * represented by the outcome of trying it at each position of the line.
 */
module Matches {
  import opened Wrappers

  /**
   * A match as `Matcher.start()`, the start and end of its named group and
   * `Matcher.end()` give it; the group is line[groupStart..groupEnd].
   */
  datatype Match = Match(start: nat, groupStart: nat, groupEnd: nat, end: nat)

  /**
   * The pattern tried at every position of a line of length |attempts|: a
   * match found at p starts at p, its group lies strictly inside it, and it
   * ends within the line.
   */
  predicate IsAttemptTable(attempts: seq<Option<Match>>) {
    forall p :: 0 <= p < |attempts| && attempts[p].Some? ==>
      var m := attempts[p].value; m.start == p < m.groupStart <= m.groupEnd < m.end <= |attempts|
  }

  /** Every match lies within a line of length n, its group inside it. */
  predicate WithinLine(ms: seq<Match>, n: nat) {
    forall k :: 0 <= k < |ms| ==> ms[k].start < ms[k].groupStart <= ms[k].groupEnd < ms[k].end <= n
  }

  /** One `find()` call from position i: the first position at or after i where the pattern matches. */
  function FindFrom(attempts: seq<Option<Match>>, i: nat): (r: Option<Match>)
    requires IsAttemptTable(attempts) && i <= |attempts|
    ensures r.Some? ==> i <= r.value.start < |attempts| && attempts[r.value.start] == r
    ensures r.Some? ==> forall q :: i <= q < r.value.start ==> attempts[q].None?
    ensures r.None? ==> forall q :: i <= q < |attempts| ==> attempts[q].None?
    decreases |attempts| - i
  {
    if i == |attempts| then None
    else if attempts[i].Some? then attempts[i]
    else FindFrom(attempts, i + 1)
  }

  /** Successive `find()` calls from position i: each search resumes at the previous match's end. */
  function MatchesFrom(attempts: seq<Option<Match>>, i: nat): (ms: seq<Match>)
    requires IsAttemptTable(attempts) && i <= |attempts|
    ensures 2 * |ms| <= |attempts| - i
    decreases |attempts| - i
  {
    match FindFrom(attempts, i)
    case None => []
    case Some(m) => [m] + MatchesFrom(attempts, m.end)
  }

  /** Every reported match is one the pattern gives at its start, at or after i, so it lies within the line. */
  lemma {:induction false} MatchesFromInTable(attempts: seq<Option<Match>>, i: nat)
    requires IsAttemptTable(attempts) && i <= |attempts|
    ensures forall k :: 0 <= k < |MatchesFrom(attempts, i)| ==>
              i <= MatchesFrom(attempts, i)[k].start < |attempts| &&
              attempts[MatchesFrom(attempts, i)[k].start] == Some(MatchesFrom(attempts, i)[k])
    ensures WithinLine(MatchesFrom(attempts, i), |attempts|)
    decreases |attempts| - i
  {
    match FindFrom(attempts, i)
    case None =>
    case Some(m) =>
      MatchesFromInTable(attempts, m.end);
      var ms := MatchesFrom(attempts, i);
      var rest := MatchesFrom(attempts, m.end);
      assert ms == [m] + rest;
      forall k | 0 <= k < |ms| ensures i <= ms[k].start < |attempts| && attempts[ms[k].start] == Some(ms[k]) {
        if k > 0 { assert ms[k] == rest[k - 1]; }
      }
  }

  /** One `find()` call: a match found from pos is the first of the matches from pos, and none found means no more. */
  lemma FindStep(attempts: seq<Option<Match>>, pos: nat)
    requires IsAttemptTable(attempts) && pos <= |attempts|
    ensures FindFrom(attempts, pos).None? ==> MatchesFrom(attempts, pos) == []
    ensures FindFrom(attempts, pos).Some? ==>
              MatchesFrom(attempts, pos) == [FindFrom(attempts, pos).value] + MatchesFrom(attempts, FindFrom(attempts, pos).value.end)
  {
  }

  /** Each match ends before the next one starts. */
  predicate NonOverlapping(ms: seq<Match>) {
    forall k :: 0 <= k < |ms| - 1 ==> ms[k].end <= ms[k + 1].start
  }

  lemma NonOverlappingCons(m: Match, rest: seq<Match>)
    requires NonOverlapping(rest) && (rest != [] ==> m.end <= rest[0].start)
    ensures NonOverlapping([m] + rest)
  {
    var ms := [m] + rest;
    forall k | 0 <= k < |ms| - 1 ensures ms[k].end <= ms[k + 1].start {
      if k > 0 {
        assert ms[k] == rest[k - 1] && ms[k + 1] == rest[k];
      }
    }
  }

  /** In a non-overlapping sequence of matches, each one ends before any later one starts. */
  lemma {:induction false} NonOverlappingApart(ms: seq<Match>, n: nat, k: nat, l: nat)
    requires NonOverlapping(ms) && WithinLine(ms, n) && k < l < |ms|
    ensures ms[k].end <= ms[l].start
    decreases l - k
  {
    if k + 1 < l {
      NonOverlappingApart(ms, n, k, l - 1);
    }
  }

  /** Matches are reported left to right and do not overlap. */
  lemma {:induction false} MatchesOrdered(attempts: seq<Option<Match>>, i: nat)
    requires IsAttemptTable(attempts) && i <= |attempts|
    ensures NonOverlapping(MatchesFrom(attempts, i))
    decreases |attempts| - i
  {
    match FindFrom(attempts, i)
    case None =>
    case Some(m) =>
      MatchesOrdered(attempts, m.end);
      NonOverlappingCons(m, MatchesFrom(attempts, m.end));
  }

  /**
   * `find()` skips nothing: every position at which the pattern matches is
   * the start of a reported match or lies inside one.
   */
  lemma {:induction false} MatchesCover(attempts: seq<Option<Match>>, i: nat, j: nat)
    requires IsAttemptTable(attempts) && i <= j < |attempts| && attempts[j].Some?
    ensures exists k :: 0 <= k < |MatchesFrom(attempts, i)| &&
                        MatchesFrom(attempts, i)[k].start <= j < MatchesFrom(attempts, i)[k].end
    decreases |attempts| - i
  {
    var ms := MatchesFrom(attempts, i);
    var m := FindFrom(attempts, i).value;
    if j < m.end {
      assert ms[0] == m;
    } else {
      MatchesCover(attempts, m.end, j);
      var rest := MatchesFrom(attempts, m.end);
      var k :| 0 <= k < |rest| && rest[k].start <= j < rest[k].end;
      assert ms[k + 1] == rest[k];
    }
  }

  /** A position where the pattern matches and that no reported match covers beyond its start is reported. */
  lemma MatchesReportUncovered(attempts: seq<Option<Match>>, j: nat)
    requires IsAttemptTable(attempts) && j < |attempts| && attempts[j].Some?
    requires forall k :: 0 <= k < |MatchesFrom(attempts, 0)| ==> !(MatchesFrom(attempts, 0)[k].start < j < MatchesFrom(attempts, 0)[k].end)
    ensures attempts[j].value in MatchesFrom(attempts, 0)
  {
    MatchesCover(attempts, 0, j);
    MatchesFromInTable(attempts, 0);
    var ms := MatchesFrom(attempts, 0);
    var k :| 0 <= k < |ms| && ms[k].start <= j < ms[k].end;
    assert ms[k].start == j;
  }
}
