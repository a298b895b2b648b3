/** What a written `string match` pattern means, stated on its parts and not on its characters. */
module TclGlobMeaning {
  import opened Options
  import opened Sequences
  import opened TclGlob

  // Patterns in parts.

  /** A member of a set: one character, or all that lie between two, in either direction. */
  datatype Member = One(c: char) | Range(a: char, b: char)

  datatype Atom = Star | AnyOne | Set(members: seq<Member>) | Plain(c: char) | Escaped(c: char)

  ghost predicate MemberOk(m: Member)
  {
    match m
    case One(c) => c !in "]-"
    case Range(a, b) => a !in "]-" && b !in "]-"
  }

  ghost predicate AtomOk(a: Atom)
  {
    match a
    case Set(members) => forall i :: 0 <= i < |members| ==> MemberOk(members[i])
    case Plain(c) => c !in "*?[\\"
    case _ => true
  }

  ghost predicate PatternOk(atoms: seq<Atom>)
  {
    forall i :: 0 <= i < |atoms| ==> AtomOk(atoms[i])
  }

  function ShowMember(m: Member): (s: string)
  {
    match m
    case One(c) => [c]
    case Range(a, b) => [a, '-', b]
  }

  function ShowMembers(members: seq<Member>): (s: string)
  {
    if members == [] then "" else ShowMember(members[0]) + ShowMembers(members[1..])
  }

  function ShowAtom(a: Atom): (s: string)
  {
    match a
    case Star => "*"
    case AnyOne => "?"
    case Set(members) => "[" + ShowMembers(members) + "]"
    case Plain(c) => [c]
    case Escaped(c) => ['\\', c]
  }

  /** The pattern as it is written. */
  function Show(atoms: seq<Atom>): (s: string)
  {
    if atoms == [] then "" else ShowAtom(atoms[0]) + Show(atoms[1..])
  }

  // What they stand for.

  predicate Between(a: char, x: char, b: char)
  {
    (a <= x && x <= b) || (b <= x && x <= a)
  }

  /** The ends of a range belong to it. */
  predicate MemberAdmits(m: Member, x: char, fold: char -> char)
  {
    match m
    case One(c) => fold(c) == x
    case Range(a, b) => Between(fold(a), x, fold(b))
  }

  ghost predicate SetAdmits(members: seq<Member>, x: char, fold: char -> char)
  {
    exists i :: 0 <= i < |members| && MemberAdmits(members[i], x, fold)
  }

  ghost predicate Admits(a: Atom, c: char, fold: char -> char)
  {
    match a
    case Star => false
    case AnyOne => true
    case Set(members) => SetAdmits(members, fold(c), fold)
    case Plain(x) => fold(x) == fold(c)
    case Escaped(x) => fold(x) == fold(c)
  }

  /** A star stands for any text at all, every other atom for one character that it admits. */
  ghost predicate Means(atoms: seq<Atom>, s: string, fold: char -> char)
    decreases |atoms|, 0
  {
    if atoms == [] then s == ""
    else if atoms[0] == Star then MeansLater(atoms[1..], s, fold)
    else s != "" && Admits(atoms[0], s[0], fold) && Means(atoms[1..], s[1..], fold)
  }

  ghost predicate MeansLater(atoms: seq<Atom>, s: string, fold: char -> char)
    decreases |atoms|, 1
  {
    exists k :: 0 <= k <= |s| && Means(atoms, s[k..], fold)
  }

  // Sets.

  lemma {:induction false} SetAdmitsHead(members: seq<Member>, x: char, fold: char -> char)
    requires members != []
    ensures SetAdmits(members, x, fold) <==> MemberAdmits(members[0], x, fold) || SetAdmits(members[1..], x, fold)
  {
    if SetAdmits(members, x, fold) {
      var i :| 0 <= i < |members| && MemberAdmits(members[i], x, fold);
      assert i > 0 ==> members[1..][i - 1] == members[i];
    }
    if SetAdmits(members[1..], x, fold) {
      var i :| 0 <= i < |members[1..]| && MemberAdmits(members[1..][i], x, fold);
      assert members[i + 1] == members[1..][i];
    }
  }

  /** One written member is read as that member, when what follows it is not a dash. */
  lemma {:induction false} MemberIsRead(pre: string, m: Member, post: string, x: char, fold: char -> char)
    requires MemberOk(m) && (post != "" ==> post[0] != '-')
    ensures var p := pre + (ShowMember(m) + post);
      && p[|pre|] != ']'
      && ClassMember(p, |pre|, x, fold) == (MemberAdmits(m, x, fold), |pre| + |ShowMember(m)|)
  {
    var p := pre + (ShowMember(m) + post);
    var shown := ShowMember(m);
    assert forall i :: 0 <= i < |shown| ==> p[|pre| + i] == shown[i];
    assert post != "" ==> p[|pre| + |shown|] == post[0];
    NoDash(m);
  }

  lemma {:induction false} NoDash(m: Member)
    requires MemberOk(m)
    ensures ShowMember(m) != "" && ShowMember(m)[0] != ']' && ShowMember(m)[0] != '-'
    ensures m.Range? ==> m.b != ']' && m.b != '-'
  {
    assert "]-"[0] == ']' && "]-"[1] == '-';
  }

  /** What may end a set: its bracket and whatever follows, or the end of the pattern. */
  ghost predicate EndsSet(post: string)
  {
    post == "" || post[0] == ']'
  }

  /** The members written up to the end of the set are read as those members. */
  lemma {:induction false} MembersAreRead(pre: string, members: seq<Member>, post: string, x: char, fold: char -> char)
    requires (forall i :: 0 <= i < |members| ==> MemberOk(members[i])) && EndsSet(post)
    ensures ClassScan(pre + (ShowMembers(members) + post), |pre|, x, fold) ==
              (SetAdmits(members, x, fold), |pre| + |ShowMembers(members)| + if post == "" then 0 else 1)
    decreases |members|
  {
    var p := pre + (ShowMembers(members) + post);
    if members == [] {
      assert ShowMembers(members) + post == post;
      assert post != "" ==> p[|pre|] == post[0];
    } else {
      var m, rest := members[0], members[1..];
      var shown, later := ShowMember(m), ShowMembers(rest) + post;
      LaterIsNoDash(rest, post);
      Associates(shown, ShowMembers(rest), post);
      MemberIsRead(pre, m, later, x, fold);
      Associates(pre, shown, later);
      MembersAreRead(pre + shown, rest, post, x, fold);
      SetAdmitsHead(members, x, fold);
      hide ClassMember, MemberAdmits, SetAdmits, ShowMember;
    }
  }

  lemma {:induction false} LaterIsNoDash(members: seq<Member>, post: string)
    requires (forall i :: 0 <= i < |members| ==> MemberOk(members[i])) && EndsSet(post)
    ensures var later := ShowMembers(members) + post; later != "" ==> later[0] != '-'
  {
    if members != [] {
      NoDash(members[0]);
    }
  }

  // Whole patterns.

  ghost predicate ReadAs(p: string, pi: nat, a: Atom, width: nat, c: char, fold: char -> char)
  {
    && pi < |p| && p[pi] != '*'
    && MatchOne(p, pi, c, fold) == if Admits(a, c, fold) then Some(pi + width) else None
  }

  lemma {:induction false} SetInPlace(pre: string, shown: string, post: string)
    ensures var p := pre + ("[" + shown + "]" + post);
      p[|pre|] == '[' && p == (pre + "[") + (shown + ("]" + post))
  {
  }

  lemma {:induction false} SetIsRead(pre: string, members: seq<Member>, post: string, c: char, fold: char -> char)
    requires forall i :: 0 <= i < |members| ==> MemberOk(members[i])
    ensures var shown := ShowMembers(members);
      ReadAs(pre + ("[" + shown + "]" + post), |pre|, Set(members), |shown| + 2, c, fold)
  {
    var shown := ShowMembers(members);
    var p := pre + ("[" + shown + "]" + post);
    MembersAreRead(pre + "[", members, "]" + post, fold(c), fold);
    hide ClassScan, SetAdmits, ShowMembers, MemberOk;
    SetInPlace(pre, shown, post);
  }

  /** One written atom, tried at its place against one character. */
  lemma {:induction false} AtomIsRead(pre: string, a: Atom, post: string, c: char, fold: char -> char)
    requires AtomOk(a) && a != Star
    ensures ReadAs(pre + (ShowAtom(a) + post), |pre|, a, |ShowAtom(a)|, c, fold)
  {
    match a
    case AnyOne => assert (pre + ("?" + post))[|pre|] == '?';
    case Set(members) =>
      SetIsRead(pre, members, post, c, fold);
      hide ReadAs, ShowMembers;
    case Plain(x) =>
      PlainIsPlain(x);
      assert (pre + ([x] + post))[|pre|] == x;
    case Escaped(x) =>
      var p := pre + (['\\', x] + post);
      assert p[|pre|] == '\\' && p[|pre| + 1] == x;
  }

  lemma {:induction false} PlainIsPlain(x: char)
    requires x !in "*?[\\"
    ensures x != '*' && x != '?' && x != '[' && x != '\\'
  {
    assert "*?[\\"[0] == '*' && "*?[\\"[1] == '?' && "*?[\\"[2] == '[' && "*?[\\"[3] == '\\';
  }

  lemma {:induction false} PatternIsReadAt(pre: string, atoms: seq<Atom>, s: string, si: nat, fold: char -> char)
    requires PatternOk(atoms) && si <= |s|
    ensures Matches(pre + Show(atoms), |pre|, s, si, fold) <==> Means(atoms, s[si..], fold)
    decreases |atoms|
  {
    if atoms == [] {
      assert pre + Show(atoms) == pre;
    } else {
      var a, rest := atoms[0], atoms[1..];
      assert AtomOk(a) && PatternOk(rest);
      hide AtomOk, PatternOk, ShowAtom;
      var shown := ShowAtom(a);
      var p, next := pre + (shown + Show(rest)), |pre + shown|;
      Associates(pre, shown, Show(rest));
      HeadTail(atoms);
      forall j | si <= j <= |s|
        ensures Matches(p, next, s, j, fold) <==> Means(rest, s[j..], fold)
      {
        PatternIsReadAt(pre + shown, rest, s, j, fold);
      }
      hide Show;
      if a == Star {
        StarIsShown();
        StarIsRead(p, |pre|, next, rest, s, si, fold);
      } else {
        AtomGoesOn(pre, a, p, next, rest, s, si, fold);
      }
    }
  }

  /** From `si` on, the rest of the pattern matches where the rest of the parts means the rest of the text. */
  ghost predicate SameFrom(p: string, next: nat, rest: seq<Atom>, s: string, si: nat, fold: char -> char)
    requires next <= |p|
  {
    forall j :: si <= j <= |s| ==> (Matches(p, next, s, j, fold) <==> Means(rest, s[j..], fold))
  }

  lemma {:induction false} SameAt(p: string, next: nat, rest: seq<Atom>, s: string, si: nat, j: nat, fold: char -> char)
    requires next <= |p| && SameFrom(p, next, rest, s, si, fold) && si <= j <= |s|
    ensures Matches(p, next, s, j, fold) <==> Means(rest, s[j..], fold)
  {
  }

  lemma {:induction false} StarIsShown()
    ensures ShowAtom(Star) == "*"
  {
  }

  lemma {:induction false} AtomGoesOn(
    pre: string, a: Atom, p: string, next: nat, rest: seq<Atom>, s: string, si: nat, fold: char -> char)
    requires AtomOk(a) && a != Star && si <= |s| && p == pre + (ShowAtom(a) + Show(rest)) && next == |pre + ShowAtom(a)|
    requires next <= |p| && SameFrom(p, next, rest, s, si, fold)
    ensures Matches(p, |pre|, s, si, fold) <==> Means([a] + rest, s[si..], fold)
  {
    hide ShowAtom, Admits, MatchOne, Show, AtomOk, Matches, Means, SameFrom;
    MeansOne(a, rest, s[si..], fold);
    AtomIsRead(pre, a, Show(rest), if si < |s| then s[si] else ' ', fold);
    MatchesStep(p, |pre|, s, si, fold);
    if si < |s| {
      SameAt(p, next, rest, s, si, si + 1, fold);
      assert s[si..][1..] == s[si + 1..] && s[si..][0] == s[si];
    }
  }

  lemma {:induction false} MeansOne(a: Atom, rest: seq<Atom>, s: string, fold: char -> char)
    requires a != Star
    ensures Means([a] + rest, s, fold) <==> s != "" && Admits(a, s[0], fold) && Means(rest, s[1..], fold)
  {
    assert ([a] + rest)[1..] == rest;
  }

  lemma {:induction false} MeansStar(rest: seq<Atom>, s: string, fold: char -> char)
    ensures Means([Star] + rest, s, fold) <==> MeansLater(rest, s, fold)
  {
    assert ([Star] + rest)[1..] == rest;
  }

  lemma {:induction false} MatchesStep(p: string, pi: nat, s: string, si: nat, fold: char -> char)
    requires pi < |p| && p[pi] != '*' && si <= |s|
    ensures si == |s| ==> !Matches(p, pi, s, si, fold)
    ensures si < |s| ==>
              var next := MatchOne(p, pi, s[si], fold);
              Matches(p, pi, s, si, fold) <==> next.Some? && Matches(p, next.value, s, si + 1, fold)
  {
  }

  lemma {:induction false} LaterTakes(rest: seq<Atom>, s: string, si: nat, j: nat, fold: char -> char)
    requires si <= j <= |s| && Means(rest, s[j..], fold)
    ensures MeansLater(rest, s[si..], fold)
  {
    hide Means;
    assert s[si..][j - si..] == s[j..];
  }

  lemma {:induction false} LaterGives(rest: seq<Atom>, s: string, si: nat, fold: char -> char) returns (j: nat)
    requires si <= |s| && MeansLater(rest, s[si..], fold)
    ensures si <= j <= |s| && Means(rest, s[j..], fold)
  {
    hide Means;
    var k :| 0 <= k <= |s[si..]| && Means(rest, s[si..][k..], fold);
    j := si + k;
    assert s[si..][k..] == s[j..];
  }

  lemma {:induction false} StarIsRead(
    p: string, pi: nat, next: nat, rest: seq<Atom>, s: string, si: nat, fold: char -> char)
    requires pi < |p| && p[pi] == '*' && si <= |s| && next == pi + 1
    requires next <= |p| && SameFrom(p, next, rest, s, si, fold)
    ensures Matches(p, pi, s, si, fold) <==> Means([Star] + rest, s[si..], fold)
  {
    MeansStar(rest, s[si..], fold);
    hide Matches, Means, SameFrom, MeansLater;
    if Matches(p, pi, s, si, fold) {
      var j := StarGives(p, pi, s, si, fold);
      SameAt(p, next, rest, s, si, j, fold);
      LaterTakes(rest, s, si, j, fold);
    }
    if MeansLater(rest, s[si..], fold) {
      var j := LaterGives(rest, s, si, fold);
      SameAt(p, next, rest, s, si, j, fold);
      StarTakes(p, pi, s, si, j, fold);
    }
  }

  /** A written pattern matches exactly the texts that its parts stand for. */
  lemma {:induction false} PatternIsRead(atoms: seq<Atom>, s: string, fold: char -> char)
    requires PatternOk(atoms)
    ensures Matches(Show(atoms), 0, s, 0, fold) <==> Means(atoms, s, fold)
  {
    PatternIsReadAt("", atoms, s, 0, fold);
    assert "" + Show(atoms) == Show(atoms) && s[0..] == s;
  }

  // Patterns that are not closed.

  /** A set that the pattern's end closes, and the same with a dangling dash, whose character does not count. */
  lemma {:induction false} OpenSetIsRead(members: seq<Member>, x: char, c: char, fold: char -> char)
    requires (forall i :: 0 <= i < |members| ==> MemberOk(members[i])) && x !in "]-"
    ensures Matches("[" + ShowMembers(members), 0, [c], 0, fold) <==> SetAdmits(members, fold(c), fold)
    ensures Matches("[" + (ShowMembers(members) + [x, '-']), 0, [c], 0, fold) <==> SetAdmits(members, fold(c), fold)
  {
    var shown := ShowMembers(members);
    MembersAreRead("[", members, "", fold(c), fold);
    assert shown + "" == shown;
    OneCharacter("[" + shown, c, fold);
    DashDangles("[", members, x, fold(c), fold);
    OneCharacter("[" + (shown + [x, '-']), c, fold);
  }

  lemma {:induction false} OneCharacter(p: string, c: char, fold: char -> char)
    requires p != "" && p[0] == '[' && ClassScan(p, 1, fold(c), fold).1 == |p|
    ensures Matches(p, 0, [c], 0, fold) <==> ClassScan(p, 1, fold(c), fold).0
  {
  }

  lemma {:induction false} DashDangles(pre: string, members: seq<Member>, x: char, y: char, fold: char -> char)
    requires (forall i :: 0 <= i < |members| ==> MemberOk(members[i])) && x !in "]-"
    ensures var p := pre + (ShowMembers(members) + [x, '-']);
      ClassScan(p, |pre|, y, fold) == (SetAdmits(members, y, fold), |p|)
    decreases |members|
  {
    var p := pre + (ShowMembers(members) + [x, '-']);
    if members == [] {
      assert ShowMembers(members) + [x, '-'] == [x, '-'];
      assert p[|pre|] == x && p[|pre| + 1] == '-' && |p| == |pre| + 2;
      NoDash(One(x));
    } else {
      var m, rest := members[0], members[1..];
      var shown, later := ShowMember(m), ShowMembers(rest) + [x, '-'];
      NoDash(One(x));
      if rest != [] {
        NoDash(rest[0]);
      }
      assert later[0] != '-';
      Associates(shown, ShowMembers(rest), [x, '-']);
      MemberIsRead(pre, m, later, y, fold);
      Associates(pre, shown, later);
      DashDangles(pre + shown, rest, x, y, fold);
      SetAdmitsHead(members, y, fold);
      hide ClassMember, MemberAdmits, SetAdmits, ShowMember;
    }
  }

  /** A backslash at the very end matches nothing. */
  lemma {:induction false} TrailingBackslash(s: string, fold: char -> char)
    ensures !Matches("\\", 0, s, 0, fold)
  {
  }
}
