/** The wall-time chart's groups: the union of all runs' checks, in an order that no reading order can change. */
module CheckGroups {
  import opened Sequences

  datatype Check = Check(id: string, ord: int)

  /** The checks of all runs, in reading order. */
  function AllChecks(runs: seq<seq<Check>>): (r: seq<Check>)
  {
    if runs == [] then [] else AllChecks(runs[..|runs| - 1]) + runs[|runs| - 1]
  }

  // What the groups must be.

  /** Some check has the id and the number, and no check with the id has a lower one. */
  ghost predicate IsLeast(checks: seq<Check>, id: string, ord: int)
  {
    Check(id, ord) in checks && forall c :: c in checks && c.id == id ==> ord <= c.ord
  }

  /** Each id with its least number. */
  ghost predicate OrdsAre(checks: seq<Check>, ords: map<string, int>)
  {
    && (forall c :: c in checks ==> c.id in ords)
    && (forall id :: id in ords ==> IsLeast(checks, id, ords[id]))
  }

  /** Text in the order of its characters' code points. */
  predicate TextLess(a: string, b: string)
  {
    b != "" && (a == "" || (if a[0] == b[0] then TextLess(a[1..], b[1..]) else a[0] < b[0]))
  }

  /** By number, and then by id. */
  predicate Less(ords: map<string, int>, a: string, b: string)
    requires a in ords && b in ords
  {
    ords[a] < ords[b] || (ords[a] == ords[b] && TextLess(a, b))
  }

  ghost predicate InOrder(ords: map<string, int>, ids: seq<string>)
  {
    && (forall i :: 0 <= i < |ids| ==> ids[i] in ords)
    && (forall i, j :: 0 <= i < j < |ids| ==> Less(ords, ids[i], ids[j]))
  }

  /** Every id of every run, by least number and then by id. */
  ghost predicate IsGrouping(checks: seq<Check>, groups: seq<string>)
  {
    exists ords: map<string, int> :: GroupsBy(checks, ords, groups)
  }

  ghost predicate GroupsBy(checks: seq<Check>, ords: map<string, int>, groups: seq<string>)
  {
    OrdsAre(checks, ords) && InOrder(ords, groups) && forall id :: id in ords ==> id in groups
  }

  // There is only one such list.

  lemma {:induction false} TextIsTotal(a: string, b: string)
    ensures !(TextLess(a, b) && TextLess(b, a)) && !TextLess(a, a)
    ensures a == b || TextLess(a, b) || TextLess(b, a)
    decreases |a|
  {
    if a == "" {
    } else if b == "" {
      TextIsTotal(a[1..], a[1..]);
    } else {
      TextIsTotal(a[1..], a[1..]);
      TextIsTotal(a[1..], b[1..]);
      HeadTail(a);
      HeadTail(b);
    }
  }

  lemma {:induction false} TextIsTransitive(a: string, b: string, c: string)
    requires TextLess(a, b) && TextLess(b, c)
    ensures TextLess(a, c)
    decreases |a|
  {
    if a == "" {
    } else if a[0] == b[0] == c[0] {
      TextIsTransitive(a[1..], b[1..], c[1..]);
    }
  }

  lemma {:induction false} LessIsTotal(ords: map<string, int>, a: string, b: string)
    requires a in ords && b in ords
    ensures !(Less(ords, a, b) && Less(ords, b, a)) && !Less(ords, a, a)
    ensures a == b || Less(ords, a, b) || Less(ords, b, a)
  {
    TextIsTotal(a, b);
    TextIsTotal(a, a);
  }

  lemma {:induction false} LessIsTransitive(ords: map<string, int>, a: string, b: string, c: string)
    requires a in ords && b in ords && c in ords && Less(ords, a, b) && Less(ords, b, c)
    ensures Less(ords, a, c)
  {
    if ords[a] == ords[b] == ords[c] {
      TextIsTransitive(a, b, c);
    }
  }

  ghost predicate SameElements<T(!new)>(xs: seq<T>, ys: seq<T>)
  {
    forall x :: x in xs <==> x in ys
  }

  lemma {:induction false} OrdsAreUnique(
    checks: seq<Check>, others: seq<Check>, o: map<string, int>, p: map<string, int>)
    requires SameElements(checks, others) && OrdsAre(checks, o) && OrdsAre(others, p)
    ensures o == p
  {
    forall id
      ensures id in o <==> id in p
      ensures id in o ==> o[id] == p[id]
    {
      if id in o {
        assert IsLeast(checks, id, o[id]) && Check(id, o[id]) in others;
      }
      if id in p {
        assert IsLeast(others, id, p[id]) && Check(id, p[id]) in checks;
      }
    }
  }

  lemma {:induction false} FirstIsSame(ords: map<string, int>, xs: seq<string>, ys: seq<string>)
    requires InOrder(ords, xs) && InOrder(ords, ys) && SameElements(xs, ys) && xs != []
    ensures ys != [] && xs[0] == ys[0]
  {
    assert xs[0] in ys;
    assert ys[0] in xs;
    var i :| 0 <= i < |ys| && ys[i] == xs[0];
    var j :| 0 <= j < |xs| && xs[j] == ys[0];
    LessIsTotal(ords, xs[0], ys[0]);
  }

  lemma {:induction false} RestIsSame(ords: map<string, int>, xs: seq<string>, ys: seq<string>)
    requires InOrder(ords, xs) && InOrder(ords, ys) && SameElements(xs, ys)
    requires xs != [] && ys != [] && xs[0] == ys[0]
    ensures InOrder(ords, xs[1..]) && InOrder(ords, ys[1..]) && SameElements(xs[1..], ys[1..])
  {
    FirstOnce(ords, xs);
    FirstOnce(ords, ys);
    hide Less;
    assert forall x :: x in xs <==> x == xs[0] || x in xs[1..];
    assert forall y :: y in ys <==> y == ys[0] || y in ys[1..];
  }

  lemma {:induction false} FirstOnce(ords: map<string, int>, xs: seq<string>)
    requires InOrder(ords, xs) && xs != []
    ensures xs[0] !in xs[1..]
  {
    LessIsTotal(ords, xs[0], xs[0]);
    assert forall i :: 0 < i < |xs| ==> Less(ords, xs[0], xs[i]);
    hide Less;
  }

  lemma {:induction false} OrderIsUnique(ords: map<string, int>, xs: seq<string>, ys: seq<string>)
    requires InOrder(ords, xs) && InOrder(ords, ys) && SameElements(xs, ys)
    ensures xs == ys
    decreases |xs|
  {
    assert ys != [] ==> ys[0] in ys;
    if xs == [] {
    } else {
      FirstIsSame(ords, xs, ys);
      RestIsSame(ords, xs, ys);
      hide InOrder, SameElements;
      OrderIsUnique(ords, xs[1..], ys[1..]);
      HeadTail(xs);
      HeadTail(ys);
    }
  }

  /** Runs with the same checks, in whatever order and however often, have the same groups. */
  lemma {:induction false} GroupsIgnoreReadingOrder(
    checks: seq<Check>, others: seq<Check>, groups: seq<string>, regrouped: seq<string>)
    requires SameElements(checks, others) && IsGrouping(checks, groups) && IsGrouping(others, regrouped)
    ensures groups == regrouped
  {
    var o :| GroupsBy(checks, o, groups);
    var p :| GroupsBy(others, p, regrouped);
    OrdsAreUnique(checks, others, o, p);
    hide OrdsAre;
    assert forall id :: id in groups <==> id in o;
    assert forall id :: id in regrouped <==> id in o;
    OrderIsUnique(o, groups, regrouped);
  }

  lemma {:induction false} AllChecksHold(runs: seq<seq<Check>>, c: Check)
    ensures c in AllChecks(runs) <==> exists r :: r in runs && c in r
  {
    if runs == [] {
    } else {
      var init, last := runs[..|runs| - 1], runs[|runs| - 1];
      AllChecksHold(init, c);
      assert runs == init + [last];
    }
  }

  /** Reading the runs in another order changes nothing. */
  lemma {:induction false} GroupsIgnoreRunOrder(
    runs: seq<seq<Check>>, shuffled: seq<seq<Check>>, groups: seq<string>, regrouped: seq<string>)
    requires multiset(runs) == multiset(shuffled)
    requires IsGrouping(AllChecks(runs), groups) && IsGrouping(AllChecks(shuffled), regrouped)
    ensures groups == regrouped
  {
    forall c
      ensures c in AllChecks(runs) <==> c in AllChecks(shuffled)
    {
      AllChecksHold(runs, c);
      AllChecksHold(shuffled, c);
      assert forall r :: r in runs <==> r in multiset(runs);
      assert forall r :: r in shuffled <==> r in multiset(shuffled);
    }
    hide IsGrouping, AllChecks;
    GroupsIgnoreReadingOrder(AllChecks(runs), AllChecks(shuffled), groups, regrouped);
  }

  // What the order says of two checks.

  /** Text is ordered by the first character that differs, and a proper beginning comes before the whole. */
  lemma {:induction false} TextLessIs(p: string, c: char, d: char, x: string, y: string)
    ensures TextLess(p, p + [c] + x)
    ensures c < d ==> TextLess(p + [c] + x, p + [d] + y)
  {
    var a, b := p + [c] + x, p + [d] + y;
    if p != "" {
      TextLessIs(p[1..], c, d, x, y);
      assert a[1..] == p[1..] + [c] + x && b[1..] == p[1..] + [d] + y;
    }
  }

  /** A check seen under a number below every number of another stands before it; with equal least numbers the
      ids decide. */
  lemma {:induction false} EarlierNumberFirst(checks: seq<Check>, groups: seq<string>, i: nat, j: nat, n: int)
    requires IsGrouping(checks, groups) && i < |groups| && j < |groups|
    requires Check(groups[i], n) in checks && forall c :: c in checks && c.id == groups[j] ==> n <= c.ord
    ensures (forall c :: c in checks && c.id == groups[j] ==> n < c.ord) ==> i < j
    ensures (forall c :: c in checks && c.id == groups[i] ==> n <= c.ord) && TextLess(groups[i], groups[j]) ==> i < j
  {
    var o :| GroupsBy(checks, o, groups);
    var a, b := groups[i], groups[j];
    assert IsLeast(checks, a, o[a]) && IsLeast(checks, b, o[b]);
    TextIsTotal(a, b);
    if j < i {
      assert Less(o, b, a);
    }
  }

  // How the groups are collected.

  lemma {:induction false} OneMoreCheck(checks: seq<Check>, ords: map<string, int>, c: Check)
    requires OrdsAre(checks, ords)
    ensures OrdsAre(checks + [c],
                    if c.id !in ords || c.ord < ords[c.id] then ords[c.id := c.ord] else ords)
  {
    var more := checks + [c];
    var after := if c.id !in ords || c.ord < ords[c.id] then ords[c.id := c.ord] else ords;
    assert forall d :: d in more <==> d in checks || d == c;
    forall id | id in after
      ensures IsLeast(more, id, after[id])
    {
      if id in ords {
        assert IsLeast(checks, id, ords[id]);
      }
    }
  }

  /** The loop over one run's checks. */
  method AddRun(ghost before: seq<Check>, checks: seq<Check>, ords: map<string, int>) returns (r: map<string, int>)
    requires OrdsAre(before, ords)
    ensures OrdsAre(before + checks, r)
  {
    hide OrdsAre;
    r := ords;
    var j := 0;
    assert before + checks[..0] == before;
    while j < |checks|
      invariant 0 <= j <= |checks| && OrdsAre(before + checks[..j], r)
    {
      var c := checks[j];
      OneMoreCheck(before + checks[..j], r, c);
      assert before + checks[..j] + [c] == before + checks[..j + 1];
      if c.id !in r || c.ord < r[c.id] {
        r := r[c.id := c.ord];
      }
      j := j + 1;
    }
    assert checks[..j] == checks;
  }

  /** The loop over the runs. */
  method CollectOrds(runs: seq<seq<Check>>) returns (ords: map<string, int>)
    ensures OrdsAre(AllChecks(runs), ords)
  {
    ords := map[];
    var i := 0;
    while i < |runs|
      invariant 0 <= i <= |runs| && OrdsAre(AllChecks(runs[..i]), ords)
    {
      assert runs[..i + 1][..i] == runs[..i];
      ords := AddRun(AllChecks(runs[..i]), runs[i], ords);
      i := i + 1;
    }
    assert runs[..i] == runs;
  }

  function Insert(ords: map<string, int>, x: string, xs: seq<string>): (r: seq<string>)
    requires x in ords && forall y :: y in xs ==> y in ords
  {
    if xs == [] || Less(ords, x, xs[0]) then [x] + xs else [xs[0]] + Insert(ords, x, xs[1..])
  }

  lemma {:induction false} InsertKeepsOrder(ords: map<string, int>, x: string, xs: seq<string>)
    requires x in ords && x !in xs && InOrder(ords, xs)
    ensures InOrder(ords, Insert(ords, x, xs)) && forall y :: y in Insert(ords, x, xs) <==> y == x || y in xs
  {
    var r := Insert(ords, x, xs);
    if xs == [] {
    } else if Less(ords, x, xs[0]) {
      forall j | 0 < j < |r|
        ensures Less(ords, r[0], r[j])
      {
        if j > 1 {
          LessIsTransitive(ords, x, xs[0], xs[j - 1]);
        }
      }
    } else {
      var rest := xs[1..];
      InsertKeepsOrder(ords, x, rest);
      LessIsTotal(ords, x, xs[0]);
      ConsKeepsOrder(ords, xs, x, Insert(ords, x, rest));
    }
  }

  lemma {:induction false} ConsKeepsOrder(ords: map<string, int>, xs: seq<string>, x: string, tail: seq<string>)
    requires xs != [] && InOrder(ords, xs) && InOrder(ords, tail) && x in ords && Less(ords, xs[0], x)
    requires forall y :: y in tail <==> y == x || y in xs[1..]
    ensures InOrder(ords, [xs[0]] + tail)
    ensures forall y :: y in [xs[0]] + tail <==> y == x || y in xs
  {
    hide Less;
    assert forall y :: y in xs <==> y == xs[0] || y in xs[1..];
    forall j | 0 <= j < |tail|
      ensures Less(ords, xs[0], tail[j])
    {
      assert tail[j] in tail;
    }
  }

  /** `collect_groups`. */
  method CollectGroups(runs: seq<seq<Check>>) returns (groups: seq<string>)
    ensures IsGrouping(AllChecks(runs), groups)
  {
    var ords := CollectOrds(runs);
    groups := [];
    var todo := ords.Keys;
    while todo != {}
      invariant todo <= ords.Keys && InOrder(ords, groups)
      invariant forall id :: id in groups <==> id in ords && id !in todo
      decreases |todo|
    {
      var id :| id in todo;
      InsertKeepsOrder(ords, id, groups);
      groups := Insert(ords, id, groups);
      todo := todo - {id};
    }
    assert GroupsBy(AllChecks(runs), ords, groups);
  }
}
