/** `string match`: the single-resume-point glob matcher, proved equal to the meaning of a pattern. */
module TclGlob {
  import opened Options

  /** One member of a `[...]` set at `pj`: whether it admits `ch`, and where the next member begins.
      A dangling `-` at the end of the pattern admits nothing and ends the set. */
  function ClassMember(p: string, pj: nat, ch: char, fold: char -> char): (r: (bool, nat))
    requires pj < |p|
    ensures pj < r.1 <= |p|
  {
    var first := fold(p[pj]);
    if pj + 1 < |p| && p[pj + 1] == '-' then
      if pj + 2 >= |p| then (false, |p|)
      else var last := fold(p[pj + 2]); (first <= ch <= last || last <= ch <= first, pj + 3)
    else (first == ch, pj + 1)
  }

  /** The set from `pj` to its `]`, or to the end of the pattern when it is never closed. */
  function ClassScan(p: string, pj: nat, ch: char, fold: char -> char): (r: (bool, nat))
    requires pj <= |p|
    ensures pj <= r.1 <= |p|
    decreases |p| - pj
  {
    if pj == |p| then (false, pj)
    else if p[pj] == ']' then (false, pj + 1)
    else
      var (admits, next) := ClassMember(p, pj, ch, fold);
      var (later, end) := ClassScan(p, next, ch, fold);
      (admits || later, end)
  }

  /** One atom other than `*` against one character: the pattern index after the atom when it matches. */
  function MatchOne(p: string, pi: nat, c: char, fold: char -> char): (r: Option<nat>)
    requires pi < |p|
    ensures r.Some? ==> pi < r.value <= |p|
  {
    if p[pi] == '?' then Some(pi + 1)
    else if p[pi] == '[' then
      var (admits, end) := ClassScan(p, pi + 1, fold(c), fold);
      if admits then Some(end) else None
    else if p[pi] == '\\' then
      if pi + 1 < |p| && fold(p[pi + 1]) == fold(c) then Some(pi + 2) else None
    else if fold(p[pi]) == fold(c) then Some(pi + 1)
    else None
  }

  /** What a pattern means: `*` stands for any run of characters, every other atom for one character. */
  ghost predicate Matches(p: string, pi: nat, s: string, si: nat, fold: char -> char)
    requires pi <= |p| && si <= |s|
    decreases |p| - pi, 0
  {
    if pi == |p| then si == |s|
    else if p[pi] == '*' then MatchesFrom(p, pi + 1, s, si, fold)
    else
      && si < |s|
      && var next := MatchOne(p, pi, s[si], fold);
         next.Some? && Matches(p, next.value, s, si + 1, fold)
  }

  /** The pattern from `pi` matches at `k` or at some later index. */
  ghost predicate MatchesFrom(p: string, pi: nat, s: string, k: nat, fold: char -> char)
    requires pi <= |p|
    decreases |p| - pi, 1
  {
    exists j :: k <= j <= |s| && Matches(p, pi, s, j, fold)
  }

  // Where an atom ends does not depend on the character it is tried against.

  function AtomEnd(p: string, pi: nat): (r: nat)
    requires pi < |p|
  {
    if p[pi] == '[' then ClassScan(p, pi + 1, '\0', c => c).1
    else if p[pi] == '\\' then pi + 2
    else pi + 1
  }

  lemma {:induction false} ClassEndIsFixed(p: string, pj: nat, ch: char, fold: char -> char)
    requires pj <= |p|
    ensures ClassScan(p, pj, ch, fold).1 == ClassScan(p, pj, '\0', c => c).1
    decreases |p| - pj
  {
    if pj < |p| && p[pj] != ']' {
      ClassEndIsFixed(p, ClassMember(p, pj, ch, fold).1, ch, fold);
    }
  }

  lemma {:induction false} MatchOneEnds(p: string, pi: nat, c: char, fold: char -> char)
    requires pi < |p| && MatchOne(p, pi, c, fold).Some?
    ensures MatchOne(p, pi, c, fold).value == AtomEnd(p, pi)
  {
    if p[pi] == '[' {
      ClassEndIsFixed(p, pi + 1, fold(c), fold);
    }
  }

  /** `d` atoms, none of them a star, lead from `from` to `to`. */
  ghost predicate AtomPath(p: string, from: nat, to: nat, d: nat)
    decreases d
  {
    if d == 0 then from == to
    else from < |p| && p[from] != '*' && AtomPath(p, AtomEnd(p, from), to, d - 1)
  }

  lemma {:induction false} PathExtends(p: string, from: nat, to: nat, d: nat)
    requires AtomPath(p, from, to, d) && to < |p| && p[to] != '*'
    ensures AtomPath(p, from, AtomEnd(p, to), d + 1)
    decreases d
  {
    if d > 0 {
      PathExtends(p, AtomEnd(p, from), to, d - 1);
    } else {
      assert AtomPath(p, AtomEnd(p, from), AtomEnd(p, to), 0);
    }
  }

  /** A match that starts before a run of atoms goes on after it, one character per atom. */
  lemma {:induction false} PathPush(p: string, from: nat, to: nat, d: nat, s: string, j: nat, fold: char -> char)
    requires AtomPath(p, from, to, d) && from <= |p| && j <= |s| && Matches(p, from, s, j, fold)
    ensures to <= |p| && j + d <= |s| && Matches(p, to, s, j + d, fold)
    decreases d
  {
    if d == 0 {
    } else {
      MatchOneEnds(p, from, s[j], fold);
      PathPush(p, AtomEnd(p, from), to, d - 1, s, j + 1, fold);
    }
  }

  /** A star may stand for any run of the text. */
  lemma {:induction false} StarTakes(p: string, pi: nat, s: string, si: nat, j: nat, fold: char -> char)
    requires pi < |p| && p[pi] == '*' && si <= j <= |s| && Matches(p, pi + 1, s, j, fold)
    ensures Matches(p, pi, s, si, fold)
  {
    var next := pi + 1;
    assert Matches(p, next, s, j, fold);
    assert MatchesFrom(p, next, s, si, fold);
  }

  lemma {:induction false} StarGives(p: string, pi: nat, s: string, si: nat, fold: char -> char) returns (j: nat)
    requires pi < |p| && p[pi] == '*' && si <= |s| && Matches(p, pi, s, si, fold)
    ensures si <= j <= |s| && Matches(p, pi + 1, s, j, fold)
  {
    var next := pi + 1;
    assert MatchesFrom(p, next, s, si, fold);
    j :| si <= j <= |s| && Matches(p, next, s, j, fold);
  }

  /** A pattern that begins with a star matches from `i` whenever it matches from somewhere later. */
  lemma StarReachesBack(p: string, pi: nat, s: string, i: nat, j: nat, fold: char -> char)
    requires pi < |p| && p[pi] == '*' && i <= j <= |s| && Matches(p, pi, s, j, fold)
    ensures Matches(p, pi, s, i, fold)
  {
    var next := pi + 1;
    assert MatchesFrom(p, next, s, j, fold);
    var k :| j <= k <= |s| && Matches(p, next, s, k, fold);
    assert i <= k <= |s|;
  }

  /** Consecutive stars mean one star. */
  lemma {:induction false} StarRun(p: string, pi: nat, end: nat, s: string, si: nat, fold: char -> char)
    requires pi < end <= |p| && si <= |s| && forall q :: pi <= q < end ==> p[q] == '*'
    ensures Matches(p, pi, s, si, fold) <==> MatchesFrom(p, end, s, si, fold)
    decreases end - pi
  {
    if pi + 1 < end {
      StarRun(p, pi + 1, end, s, si, fold);
      if Matches(p, pi, s, si, fold) {
        var next := pi + 1;
        assert MatchesFrom(p, next, s, si, fold);
        var k :| si <= k <= |s| && Matches(p, next, s, k, fold);
        StarReachesBack(p, next, s, si, k, fold);
      }
    }
  }

  method ScanClass(p: string, start: nat, ch: char, fold: char -> char) returns (matched: bool, end: nat)
    requires start <= |p|
    ensures (matched, end) == ClassScan(p, start, ch, fold)
  {
    matched := false;
    var pj := start;
    while pj < |p| && p[pj] != ']'
      invariant start <= pj <= |p|
      invariant ClassScan(p, start, ch, fold) ==
                (matched || ClassScan(p, pj, ch, fold).0, ClassScan(p, pj, ch, fold).1)
    {
      var (admits, next) := ClassMember(p, pj, ch, fold);
      matched, pj := matched || admits, next;
    }
    end := if pj < |p| then pj + 1 else pj;
  }

  method MatchAtom(p: string, pi: nat, c: char, fold: char -> char) returns (r: Option<nat>)
    requires pi < |p|
    ensures r == MatchOne(p, pi, c, fold)
  {
    if p[pi] == '?' {
      return Some(pi + 1);
    }
    if p[pi] == '[' {
      var matched, end := ScanClass(p, pi + 1, fold(c), fold);
      return if matched then Some(end) else None;
    }
    var pj := pi;
    if p[pi] == '\\' {
      pj := pi + 1;
      if pj >= |p| {
        return None;
      }
    }
    r := if fold(p[pj]) == fold(c) then Some(pj + 1) else None;
  }

  /** What the loop knows at pattern index `pi` and text index `si`: with no star behind it the whole
      match is the match from here; with one, it is a match after that star at or past `starStr`, and
      the attempt at `starStr` has come here atom by atom. */
  ghost predicate Resumable(
    p: string, s: string, fold: char -> char, starPat: Option<nat>, starStr: nat, pi: nat, si: nat)
  {
    && pi <= |p| && starStr <= si <= |s|
    && (Matches(p, pi, s, si, fold) ==> Matches(p, 0, s, 0, fold))
    && match starPat
       case None => Matches(p, 0, s, 0, fold) ==> Matches(p, pi, s, si, fold)
       case Some(r) =>
         && r <= |p| && AtomPath(p, r, pi, si - starStr)
         && (Matches(p, 0, s, 0, fold) <==> MatchesFrom(p, r, s, starStr, fold))
  }

  lemma {:induction false} ResumeAfterAtom(
    p: string, s: string, fold: char -> char, starPat: Option<nat>, starStr: nat, pi: nat, si: nat)
    requires Resumable(p, s, fold, starPat, starStr, pi, si)
    requires pi < |p| && si < |s| && p[pi] != '*' && MatchOne(p, pi, s[si], fold).Some?
    ensures Resumable(p, s, fold, starPat, starStr, MatchOne(p, pi, s[si], fold).value, si + 1)
  {
    MatchOneEnds(p, pi, s[si], fold);
    if starPat.Some? {
      PathExtends(p, starPat.value, pi, si - starStr);
    }
  }

  /** The greedy step: once a later star is reached, only that star need ever be retried. */
  lemma {:induction false} ResumeAtStar(
    p: string, s: string, fold: char -> char, starPat: Option<nat>, starStr: nat, pi: nat, si: nat, end: nat)
    requires Resumable(p, s, fold, starPat, starStr, pi, si)
    requires pi < end <= |p| && forall q :: pi <= q < end ==> p[q] == '*'
    ensures Resumable(p, s, fold, Some(end), si, end, si)
  {
    StarRun(p, pi, end, s, si, fold);
    if starPat.Some? && Matches(p, 0, s, 0, fold) {
      var r := starPat.value;
      assert MatchesFrom(p, r, s, starStr, fold);
      var j :| starStr <= j <= |s| && Matches(p, r, s, j, fold);
      PathPush(p, r, pi, si - starStr, s, j, fold);
      StarReachesBack(p, pi, s, si, j + (si - starStr), fold);
    }
  }

  lemma {:induction false} ResumeAfterMismatch(
    p: string, s: string, fold: char -> char, starPat: Option<nat>, starStr: nat, pi: nat, si: nat)
    requires Resumable(p, s, fold, starPat, starStr, pi, si) && !Matches(p, pi, s, si, fold)
    ensures starPat.None? ==> !Matches(p, 0, s, 0, fold)
    ensures starPat.Some? && starStr == |s| ==> !Matches(p, 0, s, 0, fold)
    ensures starPat.Some? && starStr < |s| ==>
              Resumable(p, s, fold, starPat, starStr + 1, starPat.value, starStr + 1)
  {
    if starPat.Some? {
      var r := starPat.value;
      if Matches(p, r, s, starStr, fold) {
        PathPush(p, r, pi, si - starStr, s, starStr, fold);
      }
      if starStr < |s| && Matches(p, r, s, starStr + 1, fold) {
        assert MatchesFrom(p, r, s, starStr, fold);
      }
    }
  }

  lemma {:induction false} PathMovesOn(p: string, from: nat, to: nat, d: nat)
    requires AtomPath(p, from, to, d)
    ensures from <= to
    decreases d
  {
    if d == 0 {
    } else {
      PathMovesOn(p, AtomEnd(p, from), to, d - 1);
    }
  }

  /** The iterative matcher: one resume point, no backtracking past the latest star. */
  method DoMatch(p: string, s: string, fold: char -> char) returns (matched: bool)
    ensures matched == Matches(p, 0, s, 0, fold)
  {
    hide Matches, MatchesFrom, AtomPath;
    var pi, si := 0, 0;
    var starPat: Option<nat>, starStr := None, 0;
    while true
      invariant 0 <= pi <= |p| && 0 <= starStr <= si <= |s|
      invariant Resumable(p, s, fold, starPat, starStr, pi, si)
      decreases |p| - (if starPat.Some? then starPat.value else -1), |s| - starStr, |s| - si
    {
      if pi < |p| && p[pi] == '*' {
        var end := pi;
        while end < |p| && p[end] == '*'
          invariant pi <= end <= |p| && forall q :: pi <= q < end ==> p[q] == '*'
        {
          end := end + 1;
        }
        ResumeAtStar(p, s, fold, starPat, starStr, pi, si, end);
        if starPat.Some? {
          PathMovesOn(p, starPat.value, pi, si - starStr);
        }
        if end >= |p| {
          TrailingStar(p, s, si, fold);
          return true;
        }
        pi, starPat, starStr := end, Some(end), si;
        continue;
      }
      var advanced := false;
      if pi < |p| && si < |s| {
        var next := MatchAtom(p, pi, s[si], fold);
        if next.Some? {
          ResumeAfterAtom(p, s, fold, starPat, starStr, pi, si);
          pi, si, advanced := next.value, si + 1, true;
        }
      }
      if !advanced {
        Stuck(p, pi, s, si, fold);
        if pi >= |p| && si >= |s| {
          return true;
        }
        ResumeAfterMismatch(p, s, fold, starPat, starStr, pi, si);
        if starPat.None? || starStr >= |s| {
          return false;
        }
        pi, si, starStr := starPat.value, starStr + 1, starStr + 1;
      }
    }
  }

  lemma {:induction false} TrailingStar(p: string, s: string, si: nat, fold: char -> char)
    requires si <= |s|
    ensures MatchesFrom(p, |p|, s, si, fold)
  {
    assert Matches(p, |p|, s, |s|, fold);
  }

  lemma {:induction false} Stuck(p: string, pi: nat, s: string, si: nat, fold: char -> char)
    requires pi <= |p| && si <= |s|
    requires pi < |p| ==> p[pi] != '*' && (si < |s| ==> MatchOne(p, pi, s[si], fold).None?)
    ensures Matches(p, pi, s, si, fold) <==> pi == |p| && si == |s|
  {
  }

  // The fast paths.

  predicate IsLiteral(p: string)
  {
    forall i :: 0 <= i < |p| ==> p[i] != '*' && p[i] != '?' && p[i] != '[' && p[i] != '\\'
  }

  lemma {:induction false} LiteralFrom(p: string, pi: nat, s: string, fold: char -> char)
    requires IsLiteral(p) && pi <= |p| && pi <= |s|
    ensures Matches(p, pi, s, pi, fold) <==>
              |p| == |s| && forall i :: pi <= i < |p| ==> fold(p[i]) == fold(s[i])
    decreases |p| - pi
  {
    if pi < |p| && pi < |s| {
      LiteralFrom(p, pi + 1, s, fold);
    }
  }

  /** `string_case_match`: the two shortcuts and the general matcher agree with the meaning. */
  method StringCaseMatch(p: string, s: string, fold: char -> char) returns (matched: bool)
    ensures matched == Matches(p, 0, s, 0, fold)
  {
    if p == "*" {
      TrailingStar(p, s, 0, fold);
      StarRun(p, 0, 1, s, 0, fold);
      return true;
    }
    if IsLiteral(p) {
      LiteralFrom(p, 0, s, fold);
      return |p| == |s| && forall i :: 0 <= i < |p| ==> fold(p[i]) == fold(s[i]);
    }
    matched := DoMatch(p, s, fold);
  }
}
