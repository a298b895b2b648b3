/** Hierarchies without an inheritance cycle: when TclOO linearisation gives a chain, and the order of all of it. */
module TclOoChains {
  import opened Sequences
  import opened TclOoMro
  import opened TclOoOrder
  import TclOoCycles

  /** The ranks fall from each ranked class to its mixins and superclasses, which are ranked too. */
  ghost predicate Falls(h: Hierarchy, rank: map<Name, nat>)
  {
    forall c: Name, p: Name :: c in rank && IsParent(h, p, c) ==> p in rank && rank[p] < rank[c]
  }

  lemma {:induction false} ParentsAreLower(h: Hierarchy, rank: map<Name, nat>, cls: Name)
    requires Falls(h, rank) && cls in rank
    ensures AllBelow(rank, Listed(h.mixins, cls), rank[cls]) && AllBelow(rank, Listed(h.supers, cls), rank[cls])
  {
    assert forall p: Name :: p in Listed(h.mixins, cls) ==> IsParent(h, p, cls);
    assert forall p: Name :: p in Listed(h.supers, cls) ==> IsParent(h, p, cls);
  }

  lemma {:induction false} FallsIsRanked(h: Hierarchy, rank: map<Name, nat>)
    requires Falls(h, rank)
    ensures Ranked(h, rank)
  {
    assert forall c: Name, p: Name :: IsSuper(h, p, c) ==> IsParent(h, p, c);
  }

  // How far a walk goes.

  function Max(a: nat, b: nat): (m: nat)
  {
    if a < b then b else a
  }

  /** How many paths lead up from the class, the path that stays there included. */
  ghost function Paths(h: Hierarchy, rank: map<Name, nat>, cls: Name): (n: nat)
    requires Falls(h, rank) && cls in rank
    decreases rank[cls], 0
  {
    ParentsAreLower(h, rank, cls);
    1 + PathsAll(h, rank, Listed(h.mixins, cls), rank[cls]) + PathsAll(h, rank, Listed(h.supers, cls), rank[cls])
  }

  ghost function PathsAll(h: Hierarchy, rank: map<Name, nat>, classes: seq<Name>, bound: nat): (n: nat)
    requires Falls(h, rank) && AllBelow(rank, classes, bound)
    decreases bound, 0, |classes|
  {
    if classes == [] then 0
    else
      assert classes[0] in classes;
      Paths(h, rank, classes[0]) + PathsAll(h, rank, classes[1..], bound)
  }

  /** How many steps the longest path up from the class takes. */
  ghost function Height(h: Hierarchy, rank: map<Name, nat>, cls: Name): (n: nat)
    requires Falls(h, rank) && cls in rank
    decreases rank[cls], 0
  {
    ParentsAreLower(h, rank, cls);
    Max(HeightAll(h, rank, Listed(h.mixins, cls), rank[cls]), HeightAll(h, rank, Listed(h.supers, cls), rank[cls]))
  }

  ghost function HeightAll(h: Hierarchy, rank: map<Name, nat>, classes: seq<Name>, bound: nat): (n: nat)
    requires Falls(h, rank) && AllBelow(rank, classes, bound)
    decreases bound, 0, |classes|
  {
    if classes == [] then 0
    else
      assert classes[0] in classes;
      Max(1 + Height(h, rank, classes[0]), HeightAll(h, rank, classes[1..], bound))
  }

  /** The path is among the classes ranked no lower than the bound. */
  ghost predicate PathFrom(rank: map<Name, nat>, visiting: set<Name>, bound: nat)
  {
    forall v :: v in visiting ==> v in rank && rank[v] >= bound
  }

  /** A pass goes through exactly when the visits left cover all paths and none is longer than the levels left; it
      takes one visit for each path. */
  lemma {:induction false} PassGoesThrough(
    h: Hierarchy, rank: map<Name, nat>, cls: Name, building: bool, viaMixin: bool, visiting: set<Name>, depth: nat,
    w: Walk)
    requires Falls(h, rank) && cls in rank && PathFrom(rank, visiting, rank[cls] + 1)
    ensures var r := Dfs(h, cls, building, viaMixin, visiting, depth, w);
      && (!r.aborted <==>
            !w.aborted && Paths(h, rank, cls) <= w.budget && depth + Height(h, rank, cls) <= MaxDepth)
      && (!r.aborted ==> r.budget == w.budget - Paths(h, rank, cls))
    decreases Left(depth), 0, 0
  {
    ParentsAreLower(h, rank, cls);
    if depth > MaxDepth || w.budget == 0 {
      // The walk gives up at once.
    } else {
      var w0, inside := w.(budget := w.budget - 1), visiting + {cls};
      var mixins, supers := Listed(h.mixins, cls), Listed(h.supers, cls);
      var w1 := DfsAll(h, mixins, building, true, inside, depth + 1, w0);
      var w2 := if building == viaMixin then w1.(chain := MoveToEnd(w1.chain, cls)) else w1;
      PassesGoThrough(h, rank, rank[cls], mixins, building, true, inside, depth + 1, w0);
      PassesGoThrough(h, rank, rank[cls], supers, building, viaMixin, inside, depth + 1, w2);
    }
  }

  lemma {:induction false} PassesGoThrough(
    h: Hierarchy, rank: map<Name, nat>, bound: nat, classes: seq<Name>, building: bool, viaMixin: bool,
    visiting: set<Name>, depth: nat, w: Walk)
    requires Falls(h, rank) && AllBelow(rank, classes, bound) && PathFrom(rank, visiting, bound)
    requires 0 < depth <= MaxDepth + 1
    ensures var r := DfsAll(h, classes, building, viaMixin, visiting, depth, w);
      && (!r.aborted <==>
            && !w.aborted && PathsAll(h, rank, classes, bound) <= w.budget
            && depth - 1 + HeightAll(h, rank, classes, bound) <= MaxDepth)
      && (!r.aborted ==> r.budget == w.budget - PathsAll(h, rank, classes, bound))
    decreases Left(depth), 1, |classes|
  {
    if classes == [] {
    } else {
      assert classes[0] in classes;
      hide Falls;
      PassGoesThrough(h, rank, classes[0], building, viaMixin, visiting, depth, w);
      var next := Dfs(h, classes[0], building, viaMixin, visiting, depth, w);
      PassesGoThrough(h, rank, bound, classes[1..], building, viaMixin, visiting, depth, next);
    }
  }

  lemma {:induction false} HeightAbove(h: Hierarchy, rank: map<Name, nat>, classes: seq<Name>, bound: nat, p: Name)
    requires Falls(h, rank) && AllBelow(rank, classes, bound) && p in classes
    ensures HeightAll(h, rank, classes, bound) >= 1 + Height(h, rank, p)
  {
    if classes[0] == p {
      // The first of the classes.
    } else {
      HeightAbove(h, rank, classes[1..], bound, p);
    }
  }

  lemma {:induction false} HeightOfPath(h: Hierarchy, rank: map<Name, nat>, path: seq<Name>)
    requires Falls(h, rank) && IsSuperPath(h, path) && path[0] in rank
    ensures Height(h, rank, path[0]) >= |path| - 1
    decreases |path|
  {
    if |path| == 1 {
      // No step.
    } else {
      var rest, cls := path[1..], path[0];
      assert IsSuper(h, path[0 + 1], path[0]) && IsParent(h, path[1], path[0]);
      forall i | 0 <= i < |rest| - 1
        ensures IsSuper(h, rest[i + 1], rest[i])
      {
        assert IsSuper(h, path[(i + 1) + 1], path[i + 1]);
      }
      HeightOfPath(h, rank, rest);
      ParentsAreLower(h, rank, cls);
      HeightAbove(h, rank, Listed(h.supers, cls), rank[cls], path[1]);
    }
  }

  lemma {:induction false} LowIsNotReported(h: Hierarchy, rank: map<Name, nat>, start: Name)
    requires Falls(h, rank) && start in rank && Height(h, rank, start) <= MaxDepth
    ensures !HasSuperCycle(h, start)
  {
    FallsIsRanked(h, rank);
    if HasSuperCycle(h, start) {
      TclOoCycles.ReportMeansCycleOrDeepPath(h, start);
      if OnCycle(h, start) {
        var n: nat :| n > 0 && ReachesIn(h, start, start, n);
        RankFalls(h, rank, start, start, n);
      } else {
        var path :| TclOoCycles.IsDeepPath(h, start, path);
        HeightOfPath(h, rank, path);
      }
    }
  }

  /** Without an inheritance cycle above the class, a chain is computed exactly when no path up takes more than 1024
      steps and the paths, gone through twice, are no more than 200000. */
  lemma {:induction false} ChainExactlyWhen(h: Hierarchy, rank: map<Name, nat>, start: Name)
    requires Falls(h, rank) && start in rank
    ensures Linearise(h, start).Chain? <==>
              Height(h, rank, start) <= MaxDepth && 2 * Paths(h, rank, start) <= MaxVisits
  {
    var w, first := Walk([], MaxVisits, false), FirstPass(h, start);
    PassGoesThrough(h, rank, start, true, false, {}, 0, w);
    PassGoesThrough(h, rank, start, false, false, {}, 0, first);
    if Height(h, rank, start) <= MaxDepth {
      LowIsNotReported(h, rank, start);
    }
    hide Falls, Paths, Height, Dfs, HasSuperCycle;
  }

  // The order of the whole chain.

  lemma {:induction false} FewerSeen(h: Hierarchy, xs: seq<Name>, owner: Name, seen: seq<Name>, fewer: seq<Name>)
    requires FollowButFor(h, xs, owner, seen) && forall p :: p in fewer ==> p in seen
    ensures FollowButFor(h, xs, owner, fewer)
  {
    hide After;
  }

  /** Placing a chain late keeps every class before its superclasses. */
  lemma {:induction false} PlacedLateAny(h: Hierarchy, acc: seq<Name>, owner: Name, seen: seq<Name>, chain: seq<Name>)
    requires FollowButFor(h, acc, owner, seen) && SupersFollow(h, chain)
    ensures FollowButFor(h, Replace(acc, chain), owner, seen)
  {
    if chain == [] {
      ReplaceNothing(acc);
    } else {
      PlacedLate(h, acc, owner, seen, chain[0], chain);
      FewerSeen(h, Replace(acc, chain), owner, seen + [chain[0]], seen);
    }
  }

  lemma {:induction false} FollowsFully(h: Hierarchy, xs: seq<Name>, owner: Name)
    ensures FollowButFor(h, xs, owner, Listed(h.supers, owner)) <==> SupersFollow(h, xs)
  {
    if FollowButFor(h, xs, owner, Listed(h.supers, owner)) {
      AllFollow(h, xs, owner);
    }
    hide After;
  }

  ghost predicate NoHigher(rank: map<Name, nat>, xs: seq<Name>, bound: nat)
  {
    forall x :: x in xs ==> x in rank && rank[x] <= bound
  }

  /** The first pass puts every class it collects before all of the class's superclasses. */
  lemma {:induction false} FirstPassInOrder(
    h: Hierarchy, rank: map<Name, nat>, cls: Name, viaMixin: bool, visiting: set<Name>, depth: nat, w: Walk)
    requires Falls(h, rank) && cls in rank && PathFrom(rank, visiting, rank[cls] + 1) && w.chain == []
    requires !Dfs(h, cls, true, viaMixin, visiting, depth, w).aborted
    ensures var r := Dfs(h, cls, true, viaMixin, visiting, depth, w).chain;
      SupersFollow(h, r) && NoHigher(rank, r, rank[cls]) && (viaMixin ==> cls in r)
    decreases Left(depth), 0, 0
  {
    ParentsAreLower(h, rank, cls);
    var w0, inside := w.(budget := w.budget - 1), visiting + {cls};
    var mixins, supers, bound := Listed(h.mixins, cls), Listed(h.supers, cls), rank[cls];
    var w1 := DfsAll(h, mixins, true, true, inside, depth + 1, w0);
    var w2 := if viaMixin then w1.(chain := MoveToEnd(w1.chain, cls)) else w1;
    var w3 := DfsAll(h, supers, true, viaMixin, inside, depth + 1, w2);
    AbortSticksAll(h, supers, true, viaMixin, inside, depth + 1, w2);
    hide Falls;
    FirstPassesInOrder(h, rank, bound, cls, supers, mixins, true, inside, depth + 1, w0);
    StaysDistinctAll(h, mixins, true, true, inside, depth + 1, w0);
    FewerSeen(h, w1.chain, cls, supers + mixins, supers);
    FollowsFully(h, w1.chain, cls);
    hide FollowButFor, SupersFollow;
    if viaMixin {
      OwnPlace(h, rank, w1.chain, cls);
      FirstPassesInOrder(h, rank, bound, cls, [], supers, true, inside, depth + 1, w2);
      assert [] + supers == supers;
      StaysInAll(h, supers, true, true, inside, depth + 1, w2, cls);
    } else {
      FirstPassesInOrder(h, rank, bound, cls, supers, supers, false, inside, depth + 1, w2);
    }
    FollowsFully(h, w3.chain, cls);
    assert w3 == Dfs(h, cls, true, viaMixin, visiting, depth, w);
  }

  /** The class takes its place after what its mixins brought in. */
  lemma {:induction false} OwnPlace(h: Hierarchy, rank: map<Name, nat>, xs: seq<Name>, cls: Name)
    requires cls in rank && SupersFollow(h, xs) && Distinct(xs)
    requires forall x :: x in xs ==> x in rank && rank[x] < rank[cls]
    ensures var r := MoveToEnd(xs, cls);
      && FollowButFor(h, r, cls, []) && Distinct(r) && cls in r
      && forall x :: x in r ==> x in xs || x == cls
  {
    MovedIsDistinct(xs, cls);
    MoveNew(xs, cls);
    hide MoveToEnd, Distinct;
    var r := xs + [cls];
    forall i: nat, p: Name | i < |r| && IsSuper(h, p, r[i]) && r[i] != cls
      ensures After(r, i, p)
    {
      assert r[i] == xs[i];
      StillAfter(xs, cls, i, p);
    }
  }

  lemma {:induction false} StillAfter(xs: seq<Name>, cls: Name, i: nat, p: Name)
    ensures After(xs, i, p) ==> After(xs + [cls], i, p)
  {
    if i < |xs| {
      assert (xs + [cls])[i + 1..] == xs[i + 1..] + [cls];
    }
  }

  ghost predicate AddsLower(rank: map<Name, nat>, bound: nat, before: seq<Name>, after: seq<Name>)
  {
    forall x :: x in after ==> x in before || (x in rank && rank[x] < bound)
  }

  lemma {:induction false} MergesLower(
    rank: map<Name, nat>, bound: nat, p: Name, before: seq<Name>, apart: seq<Name>)
    requires p in rank && rank[p] < bound && NoHigher(rank, apart, rank[p])
    ensures AddsLower(rank, bound, before, Replace(before, apart))
  {
    ReplaceIs(before, apart);
  }

  lemma {:induction false} FirstPassesInOrder(
    h: Hierarchy, rank: map<Name, nat>, bound: nat, owner: Name, seen: seq<Name>, classes: seq<Name>, viaMixin: bool,
    visiting: set<Name>, depth: nat, w: Walk)
    requires Falls(h, rank) && AllBelow(rank, classes, bound) && PathFrom(rank, visiting, bound)
    requires Distinct(w.chain) && FollowButFor(h, w.chain, owner, seen)
    requires !DfsAll(h, classes, true, viaMixin, visiting, depth, w).aborted
    ensures var r := DfsAll(h, classes, true, viaMixin, visiting, depth, w).chain;
      && FollowButFor(h, r, owner, if viaMixin then seen + classes else seen)
      && AddsLower(rank, bound, w.chain, r)
    decreases Left(depth), 1, |classes|
  {
    hide FollowButFor, SupersFollow, Distinct, Falls, Replace, NoHigher;
    if classes == [] {
      assert seen + classes == seen;
    } else {
      var p := classes[0];
      assert p in classes;
      var next := Dfs(h, p, true, viaMixin, visiting, depth, w);
      var apart := Dfs(h, p, true, viaMixin, visiting, depth, w.(chain := []));
      AbortSticksAll(h, classes[1..], true, viaMixin, visiting, depth, next);
      WorksApart(h, p, true, viaMixin, visiting, depth, w);
      FirstPassInOrder(h, rank, p, viaMixin, visiting, depth, w.(chain := []));
      StaysDistinct(h, p, true, viaMixin, visiting, depth, w);
      MergesLower(rank, bound, p, w.chain, apart.chain);
      if viaMixin {
        PlacedLate(h, w.chain, owner, seen, p, apart.chain);
        assert (seen + [p]) + classes[1..] == seen + classes;
        FirstPassesInOrder(h, rank, bound, owner, seen + [p], classes[1..], viaMixin, visiting, depth, next);
      } else {
        PlacedLateAny(h, w.chain, owner, seen, apart.chain);
        FirstPassesInOrder(h, rank, bound, owner, seen, classes[1..], viaMixin, visiting, depth, next);
      }
    }
  }

  /** Without an inheritance cycle above the class, the whole chain puts every class before all of its superclasses,
      the mixin part included. */
  lemma {:induction false} WholeChainInOrder(h: Hierarchy, rank: map<Name, nat>, start: Name)
    requires Linearise(h, start).Chain? && Falls(h, rank) && start in rank
    ensures SupersFollow(h, Linearise(h, start).classes)
  {
    var first, supers := FirstPass(h, start), SuperPart(h, start);
    FirstPassInOrder(h, rank, start, false, {}, 0, Walk([], MaxVisits, false));
    FallsIsRanked(h, rank);
    RanksExactlyWhen(h, start);
    SupersFollowExactlyWhen(h, start);
    ChainHasTwoParts(h, start);
    FollowsFully(h, first.chain, start);
    PlacedLateAny(h, first.chain, start, Listed(h.supers, start), supers);
    FollowsFully(h, Replace(first.chain, supers), start);
  }

  /** Whatever cycles there are, such an order means that no listed class is its own indirect superclass. */
  lemma {:induction false} OrderMeansNoSuperCycle(h: Hierarchy, start: Name, x: Name)
    requires Linearise(h, start).Chain? && SupersFollow(h, Linearise(h, start).classes) && Inherits(h, start, x)
    ensures !OnCycle(h, x)
  {
    ChainHoldsAllInherited(h, start, x);
    var chain := Linearise(h, start).classes;
    hide Linearise, Inherits, SupersFollow, OnCycle, Distinct;
    var i :| 0 <= i < |chain| && chain[i] == x;
    FollowedIsAcyclic(h, chain, i);
  }

  // Classes listed side by side.

  ghost predicate StandsBefore(xs: seq<Name>, a: Name, b: Name)
  {
    exists i, j :: 0 <= i < j < |xs| && xs[i] == a && xs[j] == b
  }

  lemma {:induction false} BeforeAcross(xs: seq<Name>, ys: seq<Name>, a: Name, b: Name)
    requires a in xs && b in ys
    ensures StandsBefore(xs + ys, a, b)
  {
    var i :| 0 <= i < |xs| && xs[i] == a;
    var j :| 0 <= j < |ys| && ys[j] == b;
    assert (xs + ys)[i] == a && (xs + ys)[|xs| + j] == b;
  }

  lemma {:induction false} BeforeIn(xs: seq<Name>, ys: seq<Name>, a: Name, b: Name)
    requires StandsBefore(xs, a, b) || StandsBefore(ys, a, b)
    ensures StandsBefore(xs + ys, a, b)
  {
    if StandsBefore(xs, a, b) {
      var i, j :| 0 <= i < j < |xs| && xs[i] == a && xs[j] == b;
      assert (xs + ys)[i] == a && (xs + ys)[j] == b;
    } else {
      var i, j :| 0 <= i < j < |ys| && ys[i] == a && ys[j] == b;
      assert (xs + ys)[|xs| + i] == a && (xs + ys)[|xs| + j] == b;
    }
  }

  lemma {:induction false} BeforeWithout(xs: seq<Name>, ys: seq<Name>, a: Name, b: Name)
    requires StandsBefore(xs, a, b) && a !in ys && b !in ys
    ensures StandsBefore(Without(xs, ys), a, b)
  {
    var i, j :| 0 <= i < j < |xs| && xs[i] == a && xs[j] == b;
    var head, tail := xs[..i + 1], xs[i + 1..];
    assert xs == head + tail && head[i] == a && tail[j - i - 1] == b;
    WithoutConcat(head, tail, ys);
    WithoutIs(head, ys);
    WithoutIs(tail, ys);
    BeforeAcross(Without(head, ys), Without(tail, ys), a, b);
  }

  lemma {:induction false} DfsAllSplits(
    h: Hierarchy, a: seq<Name>, b: seq<Name>, building: bool, viaMixin: bool, visiting: set<Name>, depth: nat, w: Walk)
    ensures DfsAll(h, a + b, building, viaMixin, visiting, depth, w) ==
              DfsAll(h, b, building, viaMixin, visiting, depth, DfsAll(h, a, building, viaMixin, visiting, depth, w))
    decreases |a|
  {
    if a == [] {
      assert a + b == b;
    } else {
      assert (a + b)[1..] == a[1..] + b && (a + b)[0] == a[0];
      DfsAllSplits(h, a[1..], b, building, viaMixin, visiting, depth,
                   Dfs(h, a[0], building, viaMixin, visiting, depth, w));
    }
  }

  /** A class that the pass visits directly, on its own side, is collected. */
  lemma {:induction false} VisitedIsCollected(
    h: Hierarchy, classes: seq<Name>, building: bool, visiting: set<Name>, depth: nat, w: Walk, x: Name)
    requires x in classes && x !in visiting && !DfsAll(h, classes, building, building, visiting, depth, w).aborted
    ensures x in DfsAll(h, classes, building, building, visiting, depth, w).chain
  {
    assert Walks(h, [x], building, building) && Straight([x], visiting);
    CollectsAll(h, classes, [x], building, building, visiting, depth, w);
  }

  /** Of classes visited one after the other, an earlier one stays before a later one that does not lead back to
      it. */
  lemma {:induction false} ListedOrder(
    h: Hierarchy, classes: seq<Name>, building: bool, visiting: set<Name>, depth: nat, w: Walk, i: nat, j: nat)
    requires i < j < |classes| && classes[i] !in visiting && classes[j] !in visiting && Distinct(w.chain)
    requires !DfsAll(h, classes, building, building, visiting, depth, w).aborted
    requires !SomeWalksTo(h, classes[i + 1..], building, visiting, classes[i], building)
    ensures StandsBefore(DfsAll(h, classes, building, building, visiting, depth, w).chain, classes[i], classes[j])
  {
    var a, b, front, back := classes[i], classes[j], classes[..i + 1], classes[i + 1..];
    assert classes == front + back && front[i] == a && back[j - i - 1] == b;
    DfsAllSplits(h, front, back, building, building, visiting, depth, w);
    var w1 := DfsAll(h, front, building, building, visiting, depth, w);
    var t := DfsAll(h, back, building, building, visiting, depth, w1.(chain := []));
    AbortSticksAll(h, back, building, building, visiting, depth, w1);
    StaysDistinctAll(h, front, building, building, visiting, depth, w);
    WorksApartAll(h, back, building, building, visiting, depth, w1);
    hide DfsAll, SomeWalksTo, Distinct;
    VisitedIsCollected(h, front, building, visiting, depth, w, a);
    VisitedIsCollected(h, back, building, visiting, depth, w1.(chain := []), b);
    if a in t.chain {
      AddsWalkedAll(h, back, building, building, visiting, depth, w1.(chain := []), a);
    }
    WithoutIs(w1.chain, t.chain);
    BeforeAcross(Without(w1.chain, t.chain), t.chain, a, b);
  }

  lemma {:induction false} WalkInherits(h: Hierarchy, a: Name, viaMixin: bool, visiting: set<Name>, b: Name, ends: bool)
    requires WalksTo(h, a, viaMixin, visiting, b, ends)
    ensures Inherits(h, a, b) && (!ends ==> Reaches(h, a, b))
  {
    var path :| Leads(path, a, b) && Straight(path, visiting) && Walks(h, path, viaMixin, ends);
    WalkIsPath(h, path, viaMixin, ends);
    if !ends {
      SuperPathReaches(h, path);
    }
  }

  lemma {:induction false} NotItsOwnSuper(h: Hierarchy, start: Name)
    requires !HasSuperCycle(h, start)
    ensures start !in Listed(h.supers, start)
  {
    if IsSuper(h, start, start) {
      assert ReachesIn(h, start, start, 0);
      assert ReachesIn(h, start, start, 1);
      TclOoCycles.CycleIsReported(h, start);
    }
  }

  /** Superclasses stand in the order they are listed in: one comes before every later one, unless one of the later
      ones has it for a superclass. */
  lemma {:induction false} SupersInListedOrder(h: Hierarchy, start: Name, i: nat, j: nat)
    requires Linearise(h, start).Chain? && i < j < |Listed(h.supers, start)|
    requires forall k :: i < k < |Listed(h.supers, start)| ==>
               !Reaches(h, Listed(h.supers, start)[k], Listed(h.supers, start)[i])
    ensures StandsBefore(Linearise(h, start).classes, Listed(h.supers, start)[i], Listed(h.supers, start)[j])
  {
    var supers, inside := Listed(h.supers, start), {} + {start};
    ChainHasTwoParts(h, start);
    NotItsOwnSuper(h, start);
    var w := SuperPartIs(h, start);
    hide SuperPart, MixinPart, Linearise, Reaches, OnMixinPath, DfsAll;
    assert supers[i] in supers && supers[j] in supers;
    NoneReaches(h, supers, inside, i);
    ListedOrder(h, supers, false, inside, 1, w, i, j);
    BeforeIn(MixinPart(h, start), SuperPart(h, start), supers[i], supers[j]);
  }

  /** The superclass part is what visiting the superclasses one after the other makes of the class alone. */
  lemma {:induction false} SuperPartIs(h: Hierarchy, start: Name) returns (w: Walk)
    requires Linearise(h, start).Chain?
    ensures Distinct(w.chain)
    ensures var r := DfsAll(h, Listed(h.supers, start), false, false, {} + {start}, 1, w);
      !r.aborted && r.chain == SuperPart(h, start)
  {
    var first, inside := FirstPass(h, start).(chain := []), {} + {start};
    SecondPassFinishes(h, start);
    var w0 := first.(budget := first.budget - 1);
    MixinsLeaveChainAll(h, Listed(h.mixins, start), inside, 1, w0);
    w := DfsAll(h, Listed(h.mixins, start), false, true, inside, 1, w0).(chain := [start]);
    assert MoveToEnd([], start) == [start];
  }

  lemma {:induction false} NoneReaches(h: Hierarchy, supers: seq<Name>, inside: set<Name>, i: nat)
    requires i < |supers| && forall k :: i < k < |supers| ==> !Reaches(h, supers[k], supers[i])
    ensures !SomeWalksTo(h, supers[i + 1..], false, inside, supers[i], false)
  {
    hide WalksTo, Reaches;
    if p :| p in supers[i + 1..] && WalksTo(h, p, false, inside, supers[i], false) {
      WalkInherits(h, p, false, inside, supers[i], false);
    }
  }

  lemma {:induction false} NoneInherits(
    h: Hierarchy, classes: seq<Name>, viaMixin: bool, inside: set<Name>, x: Name, ends: bool)
    requires forall p :: p in classes ==> !Inherits(h, p, x)
    ensures !SomeWalksTo(h, classes, viaMixin, inside, x, ends)
  {
    hide WalksTo, Inherits;
    if p :| p in classes && WalksTo(h, p, viaMixin, inside, x, ends) {
      WalkInherits(h, p, viaMixin, inside, x, ends);
    }
  }

  /** So do mixins, as long as no superclass of the class brings them in as well. */
  lemma {:induction false} MixinsInListedOrder(h: Hierarchy, start: Name, i: nat, j: nat)
    requires Linearise(h, start).Chain? && i < j < |Listed(h.mixins, start)|
    requires var mixins := Listed(h.mixins, start);
      && mixins[i] != start && mixins[j] != start
      && (forall p :: p in mixins[i + 1..] ==> !Inherits(h, p, mixins[i]))
      && (forall p :: p in Listed(h.supers, start) ==> !Inherits(h, p, mixins[i]) && !Inherits(h, p, mixins[j]))
    ensures StandsBefore(Linearise(h, start).classes, Listed(h.mixins, start)[i], Listed(h.mixins, start)[j])
  {
    var mixins, supers, inside := Listed(h.mixins, start), Listed(h.supers, start), {} + {start};
    var a, b := mixins[i], mixins[j];
    ChainHasTwoParts(h, start);
    FirstPassKeeps(h, start, i, j);
    NotAbove(h, start, a);
    NotAbove(h, start, b);
    BeforeWithout(FirstPass(h, start).chain, SuperPart(h, start), a, b);
    BeforeIn(MixinPart(h, start), SuperPart(h, start), a, b);
  }

  lemma {:induction false} NotAbove(h: Hierarchy, start: Name, x: Name)
    requires x != start && forall p :: p in Listed(h.supers, start) ==> !Inherits(h, p, x)
    ensures !Reaches(h, start, x)
  {
    if n: nat :| ReachesIn(h, start, x, n) {
      var p: Name :| IsSuper(h, p, start) && ReachesIn(h, p, x, n - 1);
      var path := ReachesBySuperPath(h, p, x, n - 1);
      assert IsPath(h, path) && Leads(path, p, x) by {
        assert forall q: Name, c: Name :: IsSuper(h, q, c) ==> IsParent(h, q, c);
      }
    }
  }

  lemma {:induction false} FirstPassKeeps(h: Hierarchy, start: Name, i: nat, j: nat)
    requires Linearise(h, start).Chain? && i < j < |Listed(h.mixins, start)|
    requires var mixins := Listed(h.mixins, start);
      && mixins[i] != start && mixins[j] != start
      && (forall p :: p in mixins[i + 1..] ==> !Inherits(h, p, mixins[i]))
      && (forall p :: p in Listed(h.supers, start) ==> !Inherits(h, p, mixins[i]) && !Inherits(h, p, mixins[j]))
    ensures StandsBefore(FirstPass(h, start).chain, Listed(h.mixins, start)[i], Listed(h.mixins, start)[j])
  {
    var mixins, supers, inside := Listed(h.mixins, start), Listed(h.supers, start), {} + {start};
    var a, b := mixins[i], mixins[j];
    var w0 := Walk([], MaxVisits - 1, false);
    var w1 := DfsAll(h, mixins, true, true, inside, 1, w0);
    var t := DfsAll(h, supers, true, false, inside, 1, w1.(chain := []));
    assert FirstPass(h, start) == DfsAll(h, supers, true, false, inside, 1, w1);
    AbortSticksAll(h, supers, true, false, inside, 1, w1);
    StaysDistinctAll(h, mixins, true, true, inside, 1, w0);
    WorksApartAll(h, supers, true, false, inside, 1, w1);
    hide DfsAll, Dfs, SomeWalksTo, FirstPass, Linearise, Distinct, Inherits;
    NoneInherits(h, mixins[i + 1..], true, inside, a, true);
    assert Distinct(w0.chain) by {
      EmptyIsDistinct();
    }
    ListedOrder(h, mixins, true, inside, 1, w0, i, j);
    NoneInherits(h, supers, false, inside, a, true);
    NoneInherits(h, supers, false, inside, b, true);
    if a in t.chain {
      AddsWalkedAll(h, supers, true, false, inside, 1, w1.(chain := []), a);
    }
    if b in t.chain {
      AddsWalkedAll(h, supers, true, false, inside, 1, w1.(chain := []), b);
    }
    BeforeWithout(w1.chain, t.chain, a, b);
    BeforeIn(Without(w1.chain, t.chain), t.chain, a, b);
  }

  lemma {:induction false} EmptyIsDistinct()
    ensures Distinct<Name>([])
  {
  }

  // A mixin cycle can turn the order around.

  /** `A` mixes in `C`, whose superclass `S` mixes in `M`, whose superclass is `C` again. */
  const Around := Hierarchy(map["C" := ["S"], "M" := ["C"]], map["A" := ["C"], "S" := ["M"]])

  lemma {:induction false} One(cls: Name, building: bool, viaMixin: bool, visiting: set<Name>, depth: nat, w: Walk)
    ensures DfsAll(Around, [], building, viaMixin, visiting, depth, w) == w
    ensures DfsAll(Around, [cls], building, viaMixin, visiting, depth, w) ==
              Dfs(Around, cls, building, viaMixin, visiting, depth, w)
  {
    assert [cls][1..] == [];
  }

  lemma {:induction false} ThroughM(building: bool, w: Walk)
    requires w.budget >= 2
    ensures Dfs(Around, "M", building, true, {"A", "C", "S"}, 3, w) ==
              w.(budget := w.budget - 2, chain := if building then MoveToEnd(w.chain, "M") else w.chain)
  {
    assert Listed(Around.mixins, "M") == [] && Listed(Around.supers, "M") == ["C"];
    var inside := {"A", "C", "S"} + {"M"};
    var w1 := w.(budget := w.budget - 1);
    One("C", building, true, inside, 4, w1);
    var w2 := if building then w1.(chain := MoveToEnd(w1.chain, "M")) else w1;
    One("C", building, true, inside, 4, w2);
    assert "C" in inside;
  }

  lemma {:induction false} ThroughS(building: bool, w: Walk)
    requires w.budget >= 3
    ensures Dfs(Around, "S", building, true, {"A", "C"}, 2, w) ==
              w.(budget := w.budget - 3,
                 chain := if building then MoveToEnd(MoveToEnd(w.chain, "M"), "S") else w.chain)
  {
    assert Listed(Around.mixins, "S") == ["M"] && Listed(Around.supers, "S") == [];
    var inside := {"A", "C"} + {"S"};
    assert inside == {"A", "C", "S"};
    var w1 := w.(budget := w.budget - 1);
    One("M", building, true, inside, 3, w1);
    ThroughM(building, w1);
    var w2 := Dfs(Around, "M", building, true, inside, 3, w1);
    One("M", building, true, inside, 3, if building then w2.(chain := MoveToEnd(w2.chain, "S")) else w2);
  }

  lemma {:induction false} ThroughC(building: bool, w: Walk)
    requires w.budget >= 4
    ensures Dfs(Around, "C", building, true, {"A"}, 1, w) ==
              w.(budget := w.budget - 4,
                 chain := if building then MoveToEnd(MoveToEnd(MoveToEnd(w.chain, "C"), "M"), "S") else w.chain)
  {
    assert Listed(Around.mixins, "C") == [] && Listed(Around.supers, "C") == ["S"];
    var inside := {"A"} + {"C"};
    assert inside == {"A", "C"};
    var w1 := w.(budget := w.budget - 1);
    One("S", building, true, inside, 2, w1);
    var w2 := if building then w1.(chain := MoveToEnd(w1.chain, "C")) else w1;
    One("S", building, true, inside, 2, w2);
    ThroughS(building, w2);
  }

  lemma {:induction false} ThroughA(building: bool, w: Walk)
    requires w.budget >= 5
    ensures Dfs(Around, "A", building, false, {}, 0, w) ==
              w.(budget := w.budget - 5,
                 chain := if building then MoveToEnd(MoveToEnd(MoveToEnd(w.chain, "C"), "M"), "S")
                          else MoveToEnd(w.chain, "A"))
  {
    assert Listed(Around.mixins, "A") == ["C"] && Listed(Around.supers, "A") == [];
    var inside := {} + {"A"};
    assert inside == {"A"};
    var w1 := w.(budget := w.budget - 1);
    One("C", building, true, inside, 1, w1);
    ThroughC(building, w1);
    var w2 := Dfs(Around, "C", building, true, inside, 1, w1);
    One("C", building, false, inside, 1, if building then w2 else w2.(chain := MoveToEnd(w2.chain, "A")));
  }

  lemma {:induction false} MoveNew(xs: seq<Name>, x: Name)
    requires x !in xs
    ensures MoveToEnd(xs, x) == xs + [x]
  {
    if xs == [] {
    } else {
      MoveNew(xs[1..], x);
      HeadTail(xs);
      assert RemoveFirst(xs, x) + [x] == [xs[0]] + (RemoveFirst(xs[1..], x) + [x]);
    }
  }

  lemma {:induction false} AroundMoves()
    ensures MoveToEnd(MoveToEnd(MoveToEnd([], "C"), "M"), "S") == ["C", "M", "S"]
    ensures MoveToEnd(["C", "M", "S"], "A") == ["C", "M", "S", "A"]
  {
    hide MoveToEnd;
    MoveNew([], "C");
    assert [] + ["C"] == ["C"];
    MoveNew(["C"], "M");
    assert ["C"] + ["M"] == ["C", "M"];
    MoveNew(["C", "M"], "S");
    assert ["C", "M"] + ["S"] == ["C", "M", "S"];
    MoveNew(["C", "M", "S"], "A");
    assert ["C", "M", "S"] + ["A"] == ["C", "M", "S", "A"];
  }

  lemma {:induction false} AroundIsNoCycle()
    ensures !HasSuperCycle(Around, "A")
  {
    assert Listed(Around.supers, "A") == [];
    assert SeekCycleAll(Around, [], "A", {} + {"A"}, {}, 1) == Search(false, {});
  }

  lemma {:induction false} AroundChain()
    ensures Linearise(Around, "A") == Chain(["C", "M", "S", "A"])
  {
    hide Dfs, HasSuperCycle, MoveToEnd;
    AroundIsNoCycle();
    AroundMoves();
    var w := Walk([], MaxVisits, false);
    var first := Walk(["C", "M", "S"], MaxVisits - 5, false);
    ThroughA(true, w);
    assert Dfs(Around, "A", true, false, {}, 0, w) == first;
    ThroughA(false, first);
  }

  /** No class is its own indirect superclass, and still `M` is listed after its superclass `C`. */
  lemma {:induction false} MixinCycleTurnsOrder()
    ensures forall x: Name :: !OnCycle(Around, x)
    ensures Linearise(Around, "A") == Chain(["C", "M", "S", "A"]) && !SupersFollow(Around, ["C", "M", "S", "A"])
  {
    AroundChain();
    var rank := map["M" := 2, "C" := 1, "S" := 0, "A" := 0];
    assert Ranked(Around, rank);
    forall x: Name
      ensures !OnCycle(Around, x)
    {
      NoCycleAt(rank, x);
    }
    var chain := ["C", "M", "S", "A"];
    assert IsSuper(Around, "C", chain[1]) && chain[2..] == ["S", "A"];
    assert !After(chain, 1, "C");
  }

  lemma {:induction false} NoCycleAt(rank: map<Name, nat>, x: Name)
    requires Ranked(Around, rank) && "C" in rank && "M" in rank
    ensures !OnCycle(Around, x)
  {
    forall n: nat | n > 0
      ensures !ReachesIn(Around, x, x, n)
    {
      if ReachesIn(Around, x, x, n) && x in rank {
        RankFalls(Around, rank, x, x, n);
      }
      assert x !in Around.supers ==> forall p: Name :: !IsSuper(Around, p, x);
    }
  }
}
