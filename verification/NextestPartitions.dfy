/** The checker that three nextest listings partition the authoritative one. */
module NextestPartitions {
  import opened Options
  import opened Sequences

  /** A test is named by its binary and its own name. */
  type TestId = (string, string)

  datatype Testcase = Testcase(status: Option<string>) | MalformedCase

  datatype Suite = Suite(binaryId: Option<string>, testcases: Option<seq<(string, Testcase)>>) | MalformedSuite

  /** A listing: its suites in order, or none when the document has no suites object. */
  datatype Listing = Listing(suites: Option<seq<Suite>>)

  datatype Error =
    | MissingSuites | BadSuite | NoBinaryId | NoTestcases | BadTestcase | NoStatus | DuplicateTest | EmptyListing
    | NothingSelected | WrongCount | WrongNames | Overlap | NotTheWhole | ConsumersDiffer

  datatype Result<+T> = Ok(value: T) | Err(error: Error)

  // What a listing says.

  ghost predicate GoodCase(c: (string, Testcase))
  {
    c.1.Testcase? && c.1.status.Some?
  }

  ghost predicate GoodSuite(s: Suite)
  {
    && s.Suite? && s.binaryId.Some? && s.binaryId.value != "" && s.testcases.Some?
    && forall i :: 0 <= i < |s.testcases.value| ==> GoodCase(s.testcases.value[i])
  }

  predicate Matches(c: (string, Testcase))
  {
    c.1.Testcase? && c.1.status == Some("matches")
  }

  /** The matching tests among the first `n` testcases of a suite, in order. */
  ghost function MatchingCases(binaryId: string, cases: seq<(string, Testcase)>, n: nat): (r: seq<TestId>)
    requires n <= |cases|
  {
    if n == 0 then []
    else
      MatchingCases(binaryId, cases, n - 1) + (if Matches(cases[n - 1]) then [(binaryId, cases[n - 1].0)] else [])
  }

  ghost function MatchingIn(s: Suite): (r: seq<TestId>)
  {
    if s.Suite? && s.binaryId.Some? && s.testcases.Some? then
      MatchingCases(s.binaryId.value, s.testcases.value, |s.testcases.value|)
    else []
  }

  /** The matching tests of the first `n` suites, in order and with repetitions. */
  ghost function Matching(suites: seq<Suite>, n: nat): (r: seq<TestId>)
    requires n <= |suites|
  {
    if n == 0 then [] else Matching(suites, n - 1) + MatchingIn(suites[n - 1])
  }

  ghost predicate HasTestcase(suites: seq<Suite>)
  {
    exists i :: 0 <= i < |suites| && suites[i].Suite? && suites[i].testcases.Some? && suites[i].testcases.value != []
  }

  ghost function AllMatching(listing: Listing): (r: seq<TestId>)
    requires listing.suites.Some?
  {
    Matching(listing.suites.value, |listing.suites.value|)
  }

  /** A listing the checker reads: well formed, not empty, and naming no matching test twice. */
  ghost predicate Readable(listing: Listing)
  {
    && listing.suites.Some?
    && (forall i :: 0 <= i < |listing.suites.value| ==> GoodSuite(listing.suites.value[i]))
    && HasTestcase(listing.suites.value)
    && Distinct(AllMatching(listing))
  }

  // What is read, and what is refused, case by case.

  /** The suite names the test, with the status `matches`. */
  ghost predicate Lists(s: Suite, id: TestId)
  {
    && s.Suite? && s.binaryId == Some(id.0) && s.testcases.Some?
    && (id.1, Testcase(Some("matches"))) in s.testcases.value
  }

  lemma {:induction false} MatchingCasesAre(binaryId: string, cases: seq<(string, Testcase)>, n: nat, id: TestId)
    requires n <= |cases|
    ensures id in MatchingCases(binaryId, cases, n) <==>
              id.0 == binaryId && (id.1, Testcase(Some("matches"))) in cases[..n]
  {
    if n == 0 {
    } else {
      MatchingCasesAre(binaryId, cases, n - 1, id);
      assert cases[..n] == cases[..n - 1] + [cases[n - 1]];
    }
  }

  /** The matching tests of a readable listing are exactly those listed with the status `matches`. */
  lemma {:induction false} MatchingAre(suites: seq<Suite>, n: nat, id: TestId)
    requires n <= |suites| && forall i :: 0 <= i < n ==> GoodSuite(suites[i])
    ensures id in Matching(suites, n) <==> exists i :: 0 <= i < n && Lists(suites[i], id)
  {
    hide MatchingIn, Lists, GoodSuite;
    if n == 0 {
    } else {
      MatchingInIs(suites[n - 1], id);
      MatchingAre(suites, n - 1, id);
      if id in Matching(suites, n - 1) {
        var i :| 0 <= i < n - 1 && Lists(suites[i], id);
        assert Lists(suites[i], id);
      }
    }
  }

  lemma {:induction false} MatchingInIs(s: Suite, id: TestId)
    requires GoodSuite(s)
    ensures id in MatchingIn(s) <==> Lists(s, id)
  {
    MatchingCasesAre(s.binaryId.value, s.testcases.value, |s.testcases.value|, id);
    assert s.testcases.value[..|s.testcases.value|] == s.testcases.value;
  }

  /** Every way to be malformed is refused: no suites, a suite or a testcase of the wrong form, an absent or empty
      binary id, no testcases object, a testcase without a status, and a listing without testcases. */
  lemma {:induction false} MalformedIsRefused(suites: seq<Suite>, i: nat, k: nat)
    ensures !Readable(Listing(None)) && !Readable(Listing(Some([])))
    ensures i < |suites| && suites[i].MalformedSuite? ==> !Readable(Listing(Some(suites)))
    ensures i < |suites| && suites[i].Suite? && suites[i].binaryId == None ==> !Readable(Listing(Some(suites)))
    ensures i < |suites| && suites[i].Suite? && suites[i].binaryId == Some("") ==> !Readable(Listing(Some(suites)))
    ensures i < |suites| && suites[i].Suite? && suites[i].testcases == None ==> !Readable(Listing(Some(suites)))
    ensures i < |suites| && suites[i].Suite? && suites[i].testcases.Some? && k < |suites[i].testcases.value| ==>
              (suites[i].testcases.value[k].1.MalformedCase? || suites[i].testcases.value[k].1 == Testcase(None) ==>
                 !Readable(Listing(Some(suites))))
    ensures (forall j :: 0 <= j < |suites| && suites[j].Suite? ==> suites[j].testcases == Some([])) ==>
              !Readable(Listing(Some(suites)))
  {
    if Readable(Listing(Some(suites))) {
      assert i < |suites| ==> GoodSuite(suites[i]);
      if i < |suites| && k < |suites[i].testcases.value| {
        assert GoodCase(suites[i].testcases.value[k]);
      }
    }
  }

  /** One suite with one testcase is enough, matching or not. */
  lemma {:induction false} OneTestcaseIsReadable(binary: string, name: string, status: string)
    requires binary != ""
    ensures Readable(Listing(Some([Suite(Some(binary), Some([(name, Testcase(Some(status)))]))])))
  {
    var suite := Suite(Some(binary), Some([(name, Testcase(Some(status)))]));
    var listing := Listing(Some([suite]));
    assert GoodSuite(suite) && [suite][0] == suite;
    assert Matching([suite], 0) == [] && |MatchingCases(binary, suite.testcases.value, 0)| == 0;
    assert |MatchingIn(suite)| <= 1;
    assert AllMatching(listing) == [] + MatchingIn(suite);
    assert [suite][0].testcases.value != [];
  }

  // What an error says.

  ghost predicate HasCase(s: Suite, t: Testcase)
  {
    s.Suite? && s.testcases.Some? && exists k :: 0 <= k < |s.testcases.value| && s.testcases.value[k].1 == t
  }

  ghost predicate SuiteDefect(s: Suite, e: Error)
  {
    match e
    case BadSuite => s.MalformedSuite?
    case NoBinaryId => s.Suite? && (s.binaryId == None || s.binaryId == Some(""))
    case NoTestcases => s.Suite? && s.testcases == None
    case BadTestcase => HasCase(s, MalformedCase)
    case NoStatus => HasCase(s, Testcase(None))
    case _ => false
  }

  /** The error names a defect that the listing has. */
  ghost predicate ListingDefect(listing: Listing, e: Error)
  {
    match e
    case MissingSuites => listing.suites == None
    case EmptyListing => listing.suites.Some? && !HasTestcase(listing.suites.value)
    case DuplicateTest => listing.suites.Some? && !Distinct(AllMatching(listing))
    case _ =>
      && listing.suites.Some?
      && exists i :: 0 <= i < |listing.suites.value| && SuiteDefect(listing.suites.value[i], e)
  }

  ghost predicate Holds(ids: seq<TestId>, s: set<TestId>)
  {
    Distinct(ids) && (forall id :: id in s <==> id in ids) && |s| == |ids|
  }

  lemma {:induction false} HoldsMore(ids: seq<TestId>, s: set<TestId>, id: TestId)
    requires Holds(ids, s) && id !in s
    ensures Holds(ids + [id], s + {id})
  {
    var more := ids + [id];
    forall i, j | 0 <= i < j < |more|
      ensures more[i] != more[j]
    {
      assert i < |ids| ==> more[i] in ids;
    }
  }

  lemma {:induction false} DistinctPrefix(a: seq<TestId>, b: seq<TestId>)
    requires a <= b
    ensures Distinct(b) ==> Distinct(a)
  {
    assert forall i :: 0 <= i < |a| ==> a[i] == b[i];
  }

  lemma {:induction false} MatchingPrefix(suites: seq<Suite>, n: nat, m: nat)
    requires n <= m <= |suites|
    ensures Matching(suites, n) <= Matching(suites, m)
    decreases m - n
  {
    hide MatchingIn;
    if n < m {
      MatchingPrefix(suites, n, m - 1);
    }
  }

  lemma {:induction false} CasesPrefix(binaryId: string, cases: seq<(string, Testcase)>, n: nat, m: nat)
    requires n <= m <= |cases|
    ensures MatchingCases(binaryId, cases, n) <= MatchingCases(binaryId, cases, m)
    decreases m - n
  {
    if n < m {
      CasesPrefix(binaryId, cases, n, m - 1);
    }
  }

  lemma {:induction false} RepeatIsDuplicate(before: seq<TestId>, s: set<TestId>, id: TestId, all: seq<TestId>)
    requires Holds(before, s) && id in s && before + [id] <= all
    ensures !Distinct(all)
  {
    var i :| 0 <= i < |before| && before[i] == id;
    assert all[i] == (before + [id])[i] == id;
    assert all[|before|] == (before + [id])[|before|] == id;
  }

  // The loops.

  /** The loop over one suite's testcases; `selected` so far holds `before`. */
  method SelectCases(binaryId: string, cases: seq<(string, Testcase)>, selected: set<TestId>, ghost before: seq<TestId>)
    returns (r: Result<set<TestId>>)
    requires Holds(before, selected)
    ensures r.Ok? <==> (forall i :: 0 <= i < |cases| ==> GoodCase(cases[i]))
                       && Distinct(before + MatchingCases(binaryId, cases, |cases|))
    ensures r.Ok? ==> Holds(before + MatchingCases(binaryId, cases, |cases|), r.value)
    ensures r == Err(DuplicateTest) ==> !Distinct(before + MatchingCases(binaryId, cases, |cases|))
    ensures r.Err? && r.error != DuplicateTest ==> SuiteDefect(Suite(Some(binaryId), Some(cases)), r.error)
  {
    hide Holds, Distinct, MatchingCases;
    var s, k := selected, 0;
    CasesStart(binaryId, cases, before, selected);
    while k < |cases|
      invariant 0 <= k <= |cases|
      invariant forall i :: 0 <= i < k ==> GoodCase(cases[i])
      invariant Holds(before + MatchingCases(binaryId, cases, k), s)
    {
      var (name, testcase) := cases[k];
      if testcase.MalformedCase? {
        assert !GoodCase(cases[k]);
        return Err(BadTestcase);
      }
      if testcase.status.None? {
        assert !GoodCase(cases[k]);
        return Err(NoStatus);
      }
      CasesStep(binaryId, cases, before, k, s);
      if testcase.status.value == "matches" {
        var id := (binaryId, name);
        if id in s {
          return Err(DuplicateTest);
        }
        s := s + {id};
      }
      k := k + 1;
    }
    HoldsDistinct(before + MatchingCases(binaryId, cases, |cases|), s);
    return Ok(s);
  }

  lemma {:induction false} HoldsDistinct(ids: seq<TestId>, s: set<TestId>)
    requires Holds(ids, s)
    ensures Distinct(ids)
  {
  }

  lemma {:induction false} CasesStart(
    binaryId: string, cases: seq<(string, Testcase)>, before: seq<TestId>, s: set<TestId>)
    requires Holds(before, s)
    ensures Holds(before + MatchingCases(binaryId, cases, 0), s)
  {
    assert before + MatchingCases(binaryId, cases, 0) == before;
  }

  /** One well-formed testcase: skipped, added, or the reason that the whole list repeats a test. */
  lemma {:induction false} CasesStep(
    binaryId: string, cases: seq<(string, Testcase)>, before: seq<TestId>, k: nat, s: set<TestId>)
    requires k < |cases| && Holds(before + MatchingCases(binaryId, cases, k), s)
    ensures var id := (binaryId, cases[k].0);
            var next := before + MatchingCases(binaryId, cases, k + 1);
            && (!Matches(cases[k]) ==> Holds(next, s))
            && (Matches(cases[k]) && id !in s ==> Holds(next, s + {id}))
            && (Matches(cases[k]) && id in s ==> !Distinct(before + MatchingCases(binaryId, cases, |cases|)))
  {
    var id := (binaryId, cases[k].0);
    var done := MatchingCases(binaryId, cases, k);
    CasesPrefix(binaryId, cases, k + 1, |cases|);
    if Matches(cases[k]) {
      assert before + done + [id] == before + MatchingCases(binaryId, cases, k + 1);
      if id in s {
        RepeatIsDuplicate(before + done, s, id, before + MatchingCases(binaryId, cases, |cases|));
      } else {
        HoldsMore(before + done, s, id);
      }
    } else {
      assert MatchingCases(binaryId, cases, k + 1) == done;
    }
  }

  /** One suite of the listing. */
  method SelectSuite(suite: Suite, selected: set<TestId>, ghost before: seq<TestId>) returns (r: Result<set<TestId>>)
    requires Holds(before, selected)
    ensures r.Ok? <==> GoodSuite(suite) && Distinct(before + MatchingIn(suite))
    ensures r.Ok? ==> Holds(before + MatchingIn(suite), r.value)
    ensures r == Err(DuplicateTest) ==> !Distinct(before + MatchingIn(suite))
    ensures r.Err? && r.error != DuplicateTest ==> SuiteDefect(suite, r.error)
  {
    if suite.MalformedSuite? {
      return Err(BadSuite);
    }
    if suite.binaryId.None? || suite.binaryId.value == "" {
      return Err(NoBinaryId);
    }
    if suite.testcases.None? {
      return Err(NoTestcases);
    }
    r := SelectCases(suite.binaryId.value, suite.testcases.value, selected, before);
  }

  /** `_selected`: the set of matching tests, or the first thing wrong with the listing. */
  method Selected(listing: Listing) returns (r: Result<set<TestId>>)
    ensures r.Ok? <==> Readable(listing)
    ensures r.Ok? ==> r.value == Tests(listing)
    ensures r.Err? ==> ListingDefect(listing, r.error)
  {
    hide MatchingIn, Distinct;
    if listing.suites.None? {
      return Err(MissingSuites);
    }
    var suites := listing.suites.value;
    var selected: set<TestId>, count, k := {}, 0, 0;
    HoldsNothing();
    while k < |suites|
      invariant 0 <= k <= |suites| && count >= 0
      invariant forall i :: 0 <= i < k ==> GoodSuite(suites[i])
      invariant Holds(Matching(suites, k), selected)
      invariant count > 0 <==> exists i :: 0 <= i < k && suites[i].testcases.value != []
    {
      MatchingPrefix(suites, k + 1, |suites|);
      DistinctPrefix(Matching(suites, k + 1), AllMatching(listing));
      var more := SelectSuite(suites[k], selected, Matching(suites, k));
      if more.Err? {
        return Err(more.error);
      }
      selected, count := more.value, count + |suites[k].testcases.value|;
      k := k + 1;
    }
    HoldsDistinct(Matching(suites, |suites|), selected);
    HoldsIsSet(Matching(suites, |suites|), selected);
    if count == 0 {
      return Err(EmptyListing);
    }
    return Ok(selected);
  }

  lemma {:induction false} HoldsIsSet(ids: seq<TestId>, s: set<TestId>)
    requires Holds(ids, s)
    ensures s == set id | id in ids
  {
  }

  lemma {:induction false} HoldsNothing()
    ensures Holds([], {})
  {
  }

  // The partition.

  const PartitionNames := ["hash:1/3", "hash:2/3", "hash:3/3"]

  ghost predicate Disjoint(parts: seq<set<TestId>>)
  {
    forall i, j :: 0 <= i < j < |parts| ==> parts[i] !! parts[j]
  }

  ghost function Union(parts: seq<set<TestId>>): (u: set<TestId>)
  {
    if parts == [] then {} else Union(parts[..|parts| - 1]) + parts[|parts| - 1]
  }

  /** A partition: pairwise disjoint, and together the whole. */
  ghost predicate IsPartition(whole: set<TestId>, parts: seq<set<TestId>>)
  {
    Disjoint(parts) && Union(parts) == whole
  }

  lemma {:induction false} UnionHolds(parts: seq<set<TestId>>)
    ensures forall id :: id in Union(parts) <==> exists i :: 0 <= i < |parts| && id in parts[i]
  {
    if parts == [] {
    } else {
      var init := parts[..|parts| - 1];
      UnionHolds(init);
      forall id
        ensures id in Union(parts) <==> exists i :: 0 <= i < |parts| && id in parts[i]
      {
        if i :| 0 <= i < |parts| && id in parts[i] {
          assert i < |init| ==> id in init[i];
        }
        if id in Union(init) {
          var i :| 0 <= i < |init| && id in init[i];
          assert id in parts[i];
        }
      }
    }
  }

  lemma {:induction false} DisjointWithUnion(parts: seq<set<TestId>>, next: set<TestId>)
    requires Disjoint(parts)
    ensures Disjoint(parts + [next]) <==> Union(parts) !! next
  {
    UnionHolds(parts);
    var more := parts + [next];
    if Union(parts) !! next {
      forall i, j | 0 <= i < j < |more|
        ensures more[i] !! more[j]
      {
        if j == |parts| {
          assert forall id :: id in parts[i] ==> id in Union(parts);
        }
      }
    }
    if Disjoint(more) {
      forall id | id in Union(parts)
        ensures id !in next
      {
        var i :| 0 <= i < |parts| && id in parts[i];
        assert more[i] !! more[|parts|];
      }
    }
  }

  lemma {:induction false} DisjointPrefix(parts: seq<set<TestId>>, k: nat)
    requires k <= |parts|
    ensures Disjoint(parts) ==> Disjoint(parts[..k])
  {
  }

  /** `_verify_partition_sets`. */
  method VerifyPartitionSets(whole: set<TestId>, names: seq<string>, parts: seq<set<TestId>>) returns (r: Result<()>)
    requires |names| == |parts|
    ensures r.Ok? <==> names == PartitionNames && IsPartition(whole, parts)
    ensures r.Err? ==> r.error in {WrongNames, Overlap, NotTheWhole}
    ensures r == Err(WrongNames) ==> names != PartitionNames
    ensures r == Err(Overlap) ==> !Disjoint(parts)
    ensures r == Err(NotTheWhole) ==> Disjoint(parts) && Union(parts) != whole
  {
    if names != PartitionNames {
      return Err(WrongNames);
    }
    var union: set<TestId>, k := {}, 0;
    while k < |parts|
      invariant 0 <= k <= |parts|
      invariant Disjoint(parts[..k]) && union == Union(parts[..k])
    {
      DisjointWithUnion(parts[..k], parts[k]);
      assert parts[..k + 1] == parts[..k] + [parts[k]];
      assert parts[..k + 1][..k] == parts[..k];
      DisjointPrefix(parts, k + 1);
      var overlap := union * parts[k];
      if overlap != {} {
        return Err(Overlap);
      }
      union := union + parts[k];
      k := k + 1;
    }
    assert parts[..|parts|] == parts;
    var missing, unexpected := whole - union, union - whole;
    if missing != {} || unexpected != {} {
      return Err(NotTheWhole);
    }
    assert union == whole;
    return Ok(());
  }

  ghost function Tests(listing: Listing): (s: set<TestId>)
    requires listing.suites.Some?
  {
    set id | id in AllMatching(listing)
  }

  /** What the checker accepts. */
  ghost predicate Acceptable(all: Listing, parts: seq<Listing>)
  {
    && Readable(all) && Tests(all) != {}
    && |parts| == 3 && (forall i :: 0 <= i < 3 ==> Readable(parts[i]))
    && IsPartition(Tests(all), [Tests(parts[0]), Tests(parts[1]), Tests(parts[2])])
  }

  /** The error names a reason to refuse three sets of tests as the parts of the whole. */
  ghost predicate PartsDefect(whole: set<TestId>, parts: seq<set<TestId>>, e: Error)
  {
    (e == Overlap && !Disjoint(parts)) || (e == NotTheWhole && Disjoint(parts) && Union(parts) != whole)
  }

  ghost function TestsOf(parts: seq<Listing>): (sets: seq<set<TestId>>)
    requires forall l :: l in parts ==> Readable(l)
  {
    seq(|parts|, i requires 0 <= i < |parts| => assert Readable(parts[i]); Tests(parts[i]))
  }

  /** The error names a reason to refuse the listings. */
  ghost predicate VerifyDefect(all: Listing, parts: seq<Listing>, e: Error)
  {
    || ListingDefect(all, e)
    || (e == NothingSelected && Readable(all) && Tests(all) == {})
    || (e == WrongCount && |parts| != 3)
    || (exists i :: 0 <= i < |parts| && ListingDefect(parts[i], e))
    || (&& Readable(all) && (forall l :: l in parts ==> Readable(l))
        && PartsDefect(Tests(all), TestsOf(parts), e))
  }

  method SelectedAll(parts: seq<Listing>) returns (r: Result<seq<set<TestId>>>)
    ensures r.Ok? <==> forall i :: 0 <= i < |parts| ==> Readable(parts[i])
    ensures r.Ok? ==> |r.value| == |parts| && forall i :: 0 <= i < |parts| ==> r.value[i] == Tests(parts[i])
    ensures r.Err? ==> exists i :: 0 <= i < |parts| && ListingDefect(parts[i], r.error)
  {
    hide Tests, AllMatching;
    var sets: seq<set<TestId>>, k := [], 0;
    while k < |parts|
      invariant 0 <= k <= |parts| && |sets| == k
      invariant forall i :: 0 <= i < k ==> Readable(parts[i]) && sets[i] == Tests(parts[i])
    {
      var s := Selected(parts[k]);
      if s.Err? {
        return Err(s.error);
      }
      sets := sets + [s.value];
      k := k + 1;
    }
    return Ok(sets);
  }

  /** `_authoritative_selected`. */
  method AuthoritativeSelected(all: Listing) returns (r: Result<set<TestId>>)
    ensures r.Ok? <==> Readable(all) && Tests(all) != {}
    ensures r.Ok? ==> r.value == Tests(all)
    ensures r.Err? ==> ListingDefect(all, r.error) || (r.error == NothingSelected && Readable(all) && Tests(all) == {})
  {
    r := Selected(all);
    if r.Ok? && r.value == {} {
      return Err(NothingSelected);
    }
  }

  /** `verify`: it accepts exactly the partitions of a readable, non-empty authoritative listing. */
  method Verify(all: Listing, parts: seq<Listing>) returns (r: Result<()>)
    ensures r.Ok? <==> Acceptable(all, parts)
    ensures r.Err? ==> VerifyDefect(all, parts, r.error)
  {
    hide Tests, AllMatching, IsPartition, ListingDefect, Disjoint, Union;
    var whole := AuthoritativeSelected(all);
    if whole.Err? {
      return Err(whole.error);
    }
    if |parts| != 3 {
      return Err(WrongCount);
    }
    var sets := SelectedAll(parts);
    if sets.Err? {
      return Err(sets.error);
    }
    assert sets.value == [Tests(parts[0]), Tests(parts[1]), Tests(parts[2])] == TestsOf(parts);
    r := VerifyPartitionSets(whole.value, PartitionNames, sets.value);
  }

  /** The set logic of `verify_results`: producers and consumers both partition, and agree one by one. Every
      listing is read before the sets are compared. */
  method VerifyResults(all: Listing, producers: seq<Listing>, consumers: seq<Listing>) returns (r: Result<()>)
    requires |producers| == 3
    ensures r.Ok? <==> && Acceptable(all, producers) && Acceptable(all, consumers)
                       && forall i :: 0 <= i < 3 ==> Tests(consumers[i]) == Tests(producers[i])
    ensures r.Err? ==>
              || VerifyDefect(all, producers, r.error)
              || VerifyDefect(all, consumers, r.error)
              || (&& r.error == ConsumersDiffer && Acceptable(all, producers) && Acceptable(all, consumers)
                  && exists i :: 0 <= i < 3 && Tests(consumers[i]) != Tests(producers[i]))
  {
    hide Tests, AllMatching, IsPartition, ListingDefect, Disjoint, Union;
    if |consumers| != 3 {
      return Err(WrongCount);
    }
    var whole := AuthoritativeSelected(all);
    if whole.Err? {
      return Err(whole.error);
    }
    var p := SelectedAll(producers);
    if p.Err? {
      return Err(p.error);
    }
    var c := SelectedAll(consumers);
    if c.Err? {
      return Err(c.error);
    }
    assert p.value == [Tests(producers[0]), Tests(producers[1]), Tests(producers[2])] == TestsOf(producers);
    assert c.value == [Tests(consumers[0]), Tests(consumers[1]), Tests(consumers[2])] == TestsOf(consumers);
    r := VerifyPartitionSets(whole.value, PartitionNames, p.value);
    if r.Err? {
      return r;
    }
    r := VerifyPartitionSets(whole.value, PartitionNames, c.value);
    if r.Err? {
      return r;
    }
    if c.value != p.value {
      assert exists i :: 0 <= i < 3 && c.value[i] != p.value[i];
      return Err(ConsumersDiffer);
    }
    return Ok(());
  }

  lemma {:induction false} TestsCount(listing: Listing)
    requires Readable(listing)
    ensures |Tests(listing)| == |AllMatching(listing)|
  {
    DistinctCount(AllMatching(listing));
  }

  lemma {:induction false} DistinctCount(ids: seq<TestId>)
    requires Distinct(ids)
    ensures |set id | id in ids| == |ids|
  {
    if ids == [] {
    } else {
      var init, last := ids[..|ids| - 1], ids[|ids| - 1];
      DistinctCount(init);
      assert (set id | id in ids) == (set id | id in init) + {last};
      assert last !in init;
    }
  }

  lemma {:induction false} InTests(listing: Listing, id: TestId)
    requires listing.suites.Some?
    ensures id in Tests(listing) <==> id in AllMatching(listing)
  {
  }

  /** Acceptance means that no test is run twice or lost: the parts' matching testcases add up to the
      matching testcases of the authoritative listing. */
  lemma {:induction false} AcceptedCountsAddUp(all: Listing, parts: seq<Listing>)
    requires Acceptable(all, parts)
    ensures |AllMatching(parts[0])| + |AllMatching(parts[1])| + |AllMatching(parts[2])| == |AllMatching(all)|
  {
    TestsCount(all);
    TestsCount(parts[0]);
    TestsCount(parts[1]);
    TestsCount(parts[2]);
    hide Readable, Tests, Disjoint, Union;
    ThreeParts(Tests(parts[0]), Tests(parts[1]), Tests(parts[2]));
  }

  /** Every matching test of the authoritative listing is in exactly one part, and no part has another. */
  lemma {:induction false} AcceptedRunsEachOnce(all: Listing, parts: seq<Listing>, id: TestId)
    requires Acceptable(all, parts)
    ensures id in AllMatching(all) <==>
              id in AllMatching(parts[0]) || id in AllMatching(parts[1]) || id in AllMatching(parts[2])
    ensures !(id in AllMatching(parts[0]) && id in AllMatching(parts[1]))
    ensures !(id in AllMatching(parts[0]) && id in AllMatching(parts[2]))
    ensures !(id in AllMatching(parts[1]) && id in AllMatching(parts[2]))
  {
    InTests(all, id);
    InTests(parts[0], id);
    InTests(parts[1], id);
    InTests(parts[2], id);
    hide Tests, AllMatching, IsPartition;
    OneOfThree(Tests(all), Tests(parts[0]), Tests(parts[1]), Tests(parts[2]), id);
  }

  lemma {:induction false} OneOfThree(all: set<TestId>, a: set<TestId>, b: set<TestId>, c: set<TestId>, id: TestId)
    requires IsPartition(all, [a, b, c])
    ensures id in all <==> id in a || id in b || id in c
    ensures !(id in a && id in b) && !(id in a && id in c) && !(id in b && id in c)
  {
    ThreeParts(a, b, c);
    var parts := [a, b, c];
    assert parts[0] !! parts[1] && parts[0] !! parts[2] && parts[1] !! parts[2];
  }

  lemma {:induction false} ThreeParts(a: set<TestId>, b: set<TestId>, c: set<TestId>)
    ensures Union([a, b, c]) == a + b + c
    ensures Disjoint([a, b, c]) ==> |a + b + c| == |a| + |b| + |c|
  {
    var sets := [a, b, c];
    assert sets[..2] == [a, b] && [a, b][..1] == [a] && [a][..0] == [];
    assert Union([a]) == a && Union([a, b]) == a + b;
    if Disjoint(sets) {
      assert sets[0] !! sets[1] && sets[0] !! sets[2] && sets[1] !! sets[2];
      assert |a + b| == |a| + |b| && |a + b + c| == |a + b| + |c|;
    }
  }
}
