/** What the superclass cycle test of TclOO method resolution decides. */
module TclOoCycles {
  import opened Sequences
  import opened TclOoMro

  // A class on a cycle is always reported.

  /** Every superclass of an explored class is explored or still on the path, and none is the start. */
  ghost predicate Closed(h: Hierarchy, start: Name, explored: set<Name>, onPath: set<Name>)
  {
    forall x: Name, p: Name :: x in explored && IsSuper(h, p, x) ==> (p in explored || p in onPath) && p != start
  }

  lemma {:induction false} NotFoundCloses(
    h: Hierarchy, cls: Name, start: Name, onPath: set<Name>, explored: set<Name>, depth: nat)
    requires Closed(h, start, explored, onPath)
    requires start in onPath || (cls == start && onPath == {} && explored == {})
    requires !SeekCycle(h, cls, start, onPath, explored, depth).found
    ensures var after := SeekCycle(h, cls, start, onPath, explored, depth).explored;
            explored <= after && (cls in after || cls in onPath) && Closed(h, start, after, onPath)
            && (start in onPath ==> cls != start || cls in explored)
    decreases Left(depth), 0, 0
  {
    if cls in onPath || cls in explored {
      // Nothing is explored further.
    } else {
      NotFoundClosesAll(h, Listed(h.supers, cls), start, onPath + {cls}, explored, depth + 1);
    }
  }

  lemma {:induction false} NotFoundClosesAll(
    h: Hierarchy, classes: seq<Name>, start: Name, onPath: set<Name>, explored: set<Name>, depth: nat)
    requires Closed(h, start, explored, onPath) && start in onPath
    requires !SeekCycleAll(h, classes, start, onPath, explored, depth).found
    ensures var after := SeekCycleAll(h, classes, start, onPath, explored, depth).explored;
            explored <= after && Closed(h, start, after, onPath)
            && (forall p :: p in classes ==> (p in after || p in onPath) && p != start)
    decreases Left(depth), 1, |classes|
  {
    if classes == [] {
      // No superclass is left.
    } else {
      var r := SeekCycle(h, classes[0], start, onPath, explored, depth);
      NotFoundCloses(h, classes[0], start, onPath, explored, depth);
      NotFoundClosesAll(h, classes[1..], start, onPath, r.explored, depth);
      assert forall p :: p in classes ==> p == classes[0] || p in classes[1..];
    }
  }

  lemma {:induction false} ClosedNeverReturns(h: Hierarchy, start: Name, explored: set<Name>, a: Name, n: nat)
    requires Closed(h, start, explored, {}) && a in explored && n > 0
    ensures !ReachesIn(h, a, start, n)
    decreases n
  {
    forall p: Name | IsSuper(h, p, a)
      ensures !ReachesIn(h, p, start, n - 1)
    {
      if n > 1 {
        ClosedNeverReturns(h, start, explored, p, n - 1);
      }
    }
  }

  /** A class that is its own indirect superclass is reported: memoising explored classes loses nothing. */
  lemma {:induction false} CycleIsReported(h: Hierarchy, start: Name)
    requires OnCycle(h, start)
    ensures HasSuperCycle(h, start)
  {
    if !HasSuperCycle(h, start) {
      NotFoundCloses(h, start, start, {}, {}, 0);
      var n: nat :| n > 0 && ReachesIn(h, start, start, n);
      ClosedNeverReturns(h, start, SeekCycle(h, start, start, {}, {}, 0).explored, start, n);
    }
  }

  // A report means a cycle or a path past the depth limit.

  /** A path from the class one step longer than the walk goes, on which the walk would not turn back. */
  ghost predicate IsDeepPath(h: Hierarchy, start: Name, path: seq<Name>)
  {
    && IsSuperPath(h, path) && path[0] == start
    && |path| == MaxDepth + 2 && Distinct(path[..MaxDepth + 1])
  }

  ghost predicate HasDeepPath(h: Hierarchy, start: Name)
  {
    exists path: seq<Name> :: IsDeepPath(h, start, path)
  }

  ghost function SetOf(path: seq<Name>): (s: set<Name>)
  {
    set x | x in path
  }

  lemma {:induction false} LastStepOn(path: seq<Name>, cls: Name)
    ensures (path + [cls])[..|path|] == path
    ensures SetOf(path + [cls]) == SetOf(path) + {cls}
  {
    assert forall x :: x in path + [cls] <==> x in path || x == cls;
  }

  lemma {:induction false} PathGrows(h: Hierarchy, path: seq<Name>, p: Name)
    requires IsSuperPath(h, path) && IsSuper(h, p, path[|path| - 1])
    ensures IsSuperPath(h, path + [p])
  {
    hide IsSuper;
  }

  /** The walk stands at `cls`, having come by the classes of `path` before it. */
  lemma {:induction false} FoundMeansCycle(
    h: Hierarchy, path: seq<Name>, cls: Name, start: Name, explored: set<Name>, depth: nat)
    requires IsSuperPath(h, path + [cls]) && (path + [cls])[0] == start && Distinct(path)
    requires depth == |path| <= MaxDepth + 1
    requires SeekCycle(h, cls, start, SetOf(path), explored, depth).found
    ensures OnCycle(h, start) || HasDeepPath(h, start)
    decreases Left(depth), 0, 0
  {
    var longer := path + [cls];
    LastStepOn(path, cls);
    if depth > MaxDepth {
      assert IsDeepPath(h, start, longer);
    } else if cls in path {
      SuperPathReaches(h, longer);
    } else {
      assert forall p :: p in Listed(h.supers, cls) ==> IsSuper(h, p, cls);
      FoundMeansCycleAll(h, longer, Listed(h.supers, cls), start, explored, depth + 1);
    }
  }

  lemma {:induction false} FoundMeansCycleAll(
    h: Hierarchy, path: seq<Name>, classes: seq<Name>, start: Name, explored: set<Name>, depth: nat)
    requires IsSuperPath(h, path) && path[0] == start && Distinct(path) && depth == |path| <= MaxDepth + 1
    requires forall p :: p in classes ==> IsSuper(h, p, path[|path| - 1])
    requires SeekCycleAll(h, classes, start, SetOf(path), explored, depth).found
    ensures OnCycle(h, start) || HasDeepPath(h, start)
    decreases Left(depth), 1, |classes|
  {
    hide OnCycle, HasDeepPath;
    var p := classes[0];
    assert p in classes;
    var r := SeekCycle(h, p, start, SetOf(path), explored, depth);
    if r.found {
      PathGrows(h, path, p);
      assert (path + [p])[0] == path[0];
      FoundMeansCycle(h, path, p, start, explored, depth);
    } else {
      assert forall q :: q in classes[1..] ==> q in classes;
      FoundMeansCycleAll(h, path, classes[1..], start, r.explored, depth);
    }
  }

  lemma {:induction false} ReportMeansCycleOrDeepPath(h: Hierarchy, start: Name)
    requires HasSuperCycle(h, start)
    ensures OnCycle(h, start) || HasDeepPath(h, start)
  {
    assert [] + [start] == [start];
    assert SetOf([]) == {};
    FoundMeansCycle(h, [], start, start, {}, 0);
  }

  // The order of the superclasses decides whether a deep path is met.

  /** The same superclasses, each class's in any order. */
  ghost predicate Reorders(h: Hierarchy, g: Hierarchy)
  {
    forall c: Name :: multiset(Listed(h.supers, c)) == multiset(Listed(g.supers, c))
  }

  lemma {:induction false} SameSupers(h: Hierarchy, g: Hierarchy, p: Name, c: Name)
    requires Reorders(h, g)
    ensures IsSuper(h, p, c) <==> IsSuper(g, p, c)
  {
    assert multiset(Listed(h.supers, c)) == multiset(Listed(g.supers, c));
    assert p in Listed(h.supers, c) <==> p in multiset(Listed(h.supers, c));
    assert p in Listed(g.supers, c) <==> p in multiset(Listed(g.supers, c));
  }

  lemma {:induction false} SameReach(h: Hierarchy, g: Hierarchy, a: Name, b: Name, n: nat)
    requires Reorders(h, g) && ReachesIn(h, a, b, n)
    ensures ReachesIn(g, a, b, n)
    decreases n
  {
    hide Reorders, IsSuper;
    if n == 0 {
      assert ReachesIn(g, a, a, 0);
    } else {
      var p: Name :| IsSuper(h, p, a) && ReachesIn(h, p, b, n - 1);
      SameSupers(h, g, p, a);
      SameReach(h, g, p, b, n - 1);
    }
  }

  lemma {:induction false} SameCycles(h: Hierarchy, g: Hierarchy, cls: Name)
    requires Reorders(h, g)
    ensures OnCycle(h, cls) <==> OnCycle(g, cls)
  {
    if OnCycle(h, cls) {
      var n: nat :| n > 0 && ReachesIn(h, cls, cls, n);
      SameReach(h, g, cls, cls, n);
    }
    if OnCycle(g, cls) {
      var n: nat :| n > 0 && ReachesIn(g, cls, cls, n);
      assert Reorders(g, h);
      SameReach(g, h, cls, cls, n);
    }
  }

  lemma {:induction false} SameDeepPaths(h: Hierarchy, g: Hierarchy, start: Name)
    requires Reorders(h, g) && HasDeepPath(g, start)
    ensures HasDeepPath(h, start)
  {
    hide Reorders, IsSuper;
    var path :| IsDeepPath(g, start, path);
    forall i | 0 <= i < |path| - 1
      ensures IsSuper(h, path[i + 1], path[i])
    {
      SameSupers(h, g, path[i + 1], path[i]);
    }
    assert IsDeepPath(h, start, path);
  }

  /** Along the path, the next class is the first superclass of the one before it. */
  ghost predicate LeadsAlong(h: Hierarchy, path: seq<Name>)
  {
    forall k :: 0 <= k < |path| - 1 ==> Listed(h.supers, path[k]) != [] && Listed(h.supers, path[k])[0] == path[k + 1]
  }

  /** A walk whose first choices are the path follows it, with nothing explored, into the depth limit. */
  lemma {:induction false} WalkHitsLimit(h: Hierarchy, start: Name, path: seq<Name>, k: nat)
    requires IsDeepPath(h, start, path) && LeadsAlong(h, path) && k <= MaxDepth + 1
    ensures SeekCycle(h, path[k], start, SetOf(path[..k]), {}, k).found
    decreases MaxDepth + 1 - k
  {
    if k > MaxDepth {
      // The depth test answers before anything else.
    } else {
      NotYetMet(path, k);
      WalkHitsLimit(h, start, path, k + 1);
    }
  }

  lemma {:induction false} NotYetMet(path: seq<Name>, k: nat)
    requires |path| == MaxDepth + 2 && Distinct(path[..MaxDepth + 1]) && k <= MaxDepth
    ensures path[k] !in SetOf(path[..k]) && SetOf(path[..k + 1]) == SetOf(path[..k]) + {path[k]}
  {
    var part := path[..MaxDepth + 1];
    assert forall i :: 0 <= i < k ==> path[..k][i] == part[i] && part[i] != part[k];
    assert path[..k + 1] == path[..k] + [path[k]];
    LastStepOn(path[..k], path[k]);
  }

  ghost function ToFront(xs: seq<Name>, x: Name): (r: seq<Name>)
  {
    [x] + RemoveFirst(xs, x)
  }

  lemma {:induction false} ToFrontReorders(xs: seq<Name>, x: Name)
    requires x in xs
    ensures multiset(ToFront(xs, x)) == multiset(xs)
  {
    assert xs == [xs[0]] + xs[1..];
    if xs[0] == x {
      assert ToFront(xs, x) == xs;
    } else {
      ToFrontReorders(xs[1..], x);
      var rest := RemoveFirst(xs[1..], x);
      assert multiset([x] + rest) == multiset{x} + multiset(rest);
      assert ToFront(xs, x) == [x] + ([xs[0]] + rest);
    }
  }

  /** The class's superclasses, with the one that the path goes on with first. */
  ghost function Steered(h: Hierarchy, path: seq<Name>, c: Name): (r: seq<Name>)
  {
    if exists i :: OnPathAt(path, c, i) then
      var i :| OnPathAt(path, c, i);
      ToFront(Listed(h.supers, c), path[i + 1])
    else Listed(h.supers, c)
  }

  ghost predicate OnPathAt(path: seq<Name>, c: Name, i: int)
  {
    0 <= i <= MaxDepth && i + 1 < |path| && path[i] == c
  }

  ghost function Steer(h: Hierarchy, path: seq<Name>): (g: Hierarchy)
  {
    h.(supers := map c | c in h.supers :: Steered(h, path, c))
  }

  lemma {:induction false} SteerReorders(h: Hierarchy, start: Name, path: seq<Name>)
    requires IsDeepPath(h, start, path)
    ensures Reorders(h, Steer(h, path))
  {
    hide Distinct;
    forall c: Name
      ensures multiset(Listed(h.supers, c)) == multiset(Listed(Steer(h, path).supers, c))
    {
      if c in h.supers && exists i :: OnPathAt(path, c, i) {
        var i :| OnPathAt(path, c, i) && Steered(h, path, c) == ToFront(Listed(h.supers, c), path[i + 1]);
        assert IsSuper(h, path[i + 1], path[i]);
        ToFrontReorders(h.supers[c], path[i + 1]);
      }
    }
  }

  lemma {:induction false} SteerLeadsAlong(h: Hierarchy, start: Name, path: seq<Name>)
    requires IsDeepPath(h, start, path)
    ensures LeadsAlong(Steer(h, path), path)
  {
    forall k | 0 <= k < |path| - 1
      ensures Listed(Steer(h, path).supers, path[k]) != [] && Listed(Steer(h, path).supers, path[k])[0] == path[k + 1]
    {
      assert IsSuper(h, path[k + 1], path[k]);
      assert OnPathAt(path, path[k], k);
      OnePlace(path, k);
    }
  }

  lemma {:induction false} OnePlace(path: seq<Name>, k: nat)
    requires |path| == MaxDepth + 2 && Distinct(path[..MaxDepth + 1]) && k <= MaxDepth
    ensures forall i :: OnPathAt(path, path[k], i) ==> i == k
  {
    var part := path[..MaxDepth + 1];
    assert forall i :: 0 <= i <= MaxDepth ==> part[i] == path[i];
  }

  /** In whatever order the superclasses are listed, a report means a cycle through the class, exactly when the
      class is on one or has no deep path above it. */
  lemma {:induction false} CycleTestIsExact(h: Hierarchy, start: Name)
    ensures (forall g :: Reorders(h, g) ==> (HasSuperCycle(g, start) <==> OnCycle(g, start))) <==>
            (OnCycle(h, start) || !HasDeepPath(h, start))
  {
    if OnCycle(h, start) || !HasDeepPath(h, start) {
      forall g | Reorders(h, g)
        ensures HasSuperCycle(g, start) <==> OnCycle(g, start)
      {
        ExactFor(h, g, start);
      }
    } else {
      var path :| IsDeepPath(h, start, path);
      var g := Steer(h, path);
      SteerReorders(h, start, path);
      DeepPathIsReported(h, start, path);
      SameCycles(h, g, start);
    }
  }

  lemma {:induction false} ExactFor(h: Hierarchy, g: Hierarchy, start: Name)
    requires Reorders(h, g) && (OnCycle(h, start) || !HasDeepPath(h, start))
    ensures HasSuperCycle(g, start) <==> OnCycle(g, start)
  {
    hide Reorders, OnCycle, HasDeepPath, HasSuperCycle;
    SameCycles(h, g, start);
    if OnCycle(g, start) {
      CycleIsReported(g, start);
    } else if HasSuperCycle(g, start) {
      ReportMeansCycleOrDeepPath(g, start);
      SameDeepPaths(h, g, start);
      assert false;
    }
  }

  /** Listed in the order of the path, a deep path is reported. */
  lemma {:induction false} DeepPathIsReported(h: Hierarchy, start: Name, path: seq<Name>)
    requires IsDeepPath(h, start, path)
    ensures HasSuperCycle(Steer(h, path), start)
  {
    var g := Steer(h, path);
    SteerReorders(h, start, path);
    SteerLeadsAlong(h, start, path);
    SteeredPath(h, g, start, path);
    WalkHitsLimit(g, start, path, 0);
    assert SetOf(path[..0]) == {};
  }

  lemma {:induction false} SteeredPath(h: Hierarchy, g: Hierarchy, start: Name, path: seq<Name>)
    requires Reorders(h, g) && IsDeepPath(h, start, path)
    ensures IsDeepPath(g, start, path)
  {
    hide Reorders, IsSuper, Distinct;
    forall i | 0 <= i < |path| - 1
      ensures IsSuper(g, path[i + 1], path[i])
    {
      SameSupers(h, g, path[i + 1], path[i]);
    }
  }

  // Few classes have no deep path.

  /** More classes than the walk is deep lie at or above the start. */
  ghost predicate Crowded(h: Hierarchy, start: Name)
  {
    exists s: set<Name> :: |s| > MaxDepth && forall x :: x in s ==> Reaches(h, start, x)
  }

  lemma {:induction false} DistinctSize(path: seq<Name>)
    requires Distinct(path)
    ensures |SetOf(path)| == |path|
  {
    if path == [] {
      assert SetOf(path) == {};
    } else {
      var init, last := path[..|path| - 1], path[|path| - 1];
      assert path == init + [last];
      DistinctSize(init);
      LastStepOn(init, last);
      assert forall i :: 0 <= i < |init| ==> init[i] == path[i];
      assert last !in init;
    }
  }

  lemma {:induction false} SuperPathPrefix(h: Hierarchy, path: seq<Name>, i: nat)
    requires IsSuperPath(h, path) && i < |path|
    ensures Reaches(h, path[0], path[i])
  {
    SuperPathReaches(h, path[..i + 1]);
  }

  /** With no more classes above it than the walk is deep, a class is reported exactly when it is on a cycle. */
  lemma {:induction false} FewClassesAreExact(h: Hierarchy, start: Name)
    requires !Crowded(h, start)
    ensures HasSuperCycle(h, start) <==> OnCycle(h, start)
  {
    if HasDeepPath(h, start) {
      var path :| IsDeepPath(h, start, path);
      var part := path[..MaxDepth + 1];
      DistinctSize(part);
      forall x | x in SetOf(part)
        ensures Reaches(h, start, x)
      {
        var i :| 0 <= i < |part| && part[i] == x;
        SuperPathPrefix(h, path, i);
      }
      assert false;
    }
    assert Reorders(h, h);
    ExactFor(h, h, start);
  }

  // A reported hierarchy without a cycle.

  function LineName(i: nat): (n: Name)
  {
    seq(i + 1, _ => 'c')
  }

  /** A straight line: each class has the next as its only superclass, and the last has none. */
  const Line := Hierarchy(map n: Name | n in LineNames() :: [n + "c"], map[])

  function LineNames(): (s: set<Name>)
  {
    set i: nat | i <= MaxDepth :: LineName(i)
  }

  lemma {:induction false} LineStep(i: nat)
    requires i <= MaxDepth
    ensures Listed(Line.supers, LineName(i)) == [LineName(i + 1)]
  {
    assert LineName(i) in LineNames();
    assert LineName(i) + "c" == LineName(i + 1);
  }

  lemma {:induction false} LineGoesUp(a: Name, b: Name, n: nat)
    requires ReachesIn(Line, a, b, n)
    ensures |b| == |a| + n
    decreases n
  {
    if n == 0 {
      // The class itself.
    } else {
      var p: Name :| IsSuper(Line, p, a) && ReachesIn(Line, p, b, n - 1);
      assert Listed(Line.supers, a) == [a + "c"];
      LineGoesUp(p, b, n - 1);
    }
  }

  /** A line of 1026 classes is on no cycle and is reported. */
  lemma {:induction false} LineIsReported()
    ensures forall x: Name :: !OnCycle(Line, x)
    ensures HasSuperCycle(Line, LineName(0))
  {
    forall x: Name
      ensures !OnCycle(Line, x)
    {
      forall n: nat | n > 0
        ensures !ReachesIn(Line, x, x, n)
      {
        if ReachesIn(Line, x, x, n) {
          LineGoesUp(x, x, n);
        }
      }
    }
    LineIsDeep();
    WalkHitsLimit(Line, LineName(0), LinePath(), 0);
    assert SetOf(LinePath()[..0]) == {};
  }

  ghost function LinePath(): (path: seq<Name>)
  {
    seq(MaxDepth + 2, i requires 0 <= i < MaxDepth + 2 => LineName(i))
  }

  lemma {:induction false} LineIsDeep()
    ensures IsDeepPath(Line, LineName(0), LinePath()) && LeadsAlong(Line, LinePath())
  {
    var path := LinePath();
    forall i | 0 <= i < |path| - 1
      ensures Listed(Line.supers, path[i]) == [path[i + 1]]
    {
      LineStep(i);
    }
    assert forall i :: 0 <= i < |path| ==> |path[i]| == i + 1;
    assert forall i :: 0 <= i <= MaxDepth ==> path[..MaxDepth + 1][i] == path[i];
  }

  // Superclasses out of reach.

  /** The class is above the start by a chain that the walk can follow. */
  ghost predicate Near(h: Hierarchy, start: Name, x: Name)
  {
    exists n: nat :: n <= MaxDepth && ReachesIn(h, start, x, n)
  }

  ghost predicate AllNear(h: Hierarchy, start: Name, s: set<Name>)
  {
    forall x :: x in s ==> Near(h, start, x)
  }

  lemma {:induction false} OneMoreNear(h: Hierarchy, start: Name, s: set<Name>, x: Name, n: nat)
    requires AllNear(h, start, s) && n <= MaxDepth && ReachesIn(h, start, x, n)
    ensures AllNear(h, start, s + {x})
  {
    hide ReachesIn;
    assert Near(h, start, x);
  }

  lemma {:induction false} ExploredIsNear(
    h: Hierarchy, cls: Name, start: Name, onPath: set<Name>, explored: set<Name>, depth: nat)
    requires ReachesIn(h, start, cls, depth) && AllNear(h, start, explored)
    requires !SeekCycle(h, cls, start, onPath, explored, depth).found
    ensures AllNear(h, start, SeekCycle(h, cls, start, onPath, explored, depth).explored)
    decreases Left(depth), 0, 0
  {
    if cls in onPath || cls in explored {
      // Nothing is explored further.
    } else {
      hide ReachesIn, AllNear;
      assert forall p :: p in Listed(h.supers, cls) ==> IsSuper(h, p, cls);
      ExploredIsNearAll(h, cls, Listed(h.supers, cls), start, onPath + {cls}, explored, depth + 1);
      var r := SeekCycleAll(h, Listed(h.supers, cls), start, onPath + {cls}, explored, depth + 1);
      OneMoreNear(h, start, r.explored, cls, depth);
    }
  }

  lemma {:induction false} ExploredIsNearAll(
    h: Hierarchy, cls: Name, classes: seq<Name>, start: Name, onPath: set<Name>, explored: set<Name>, depth: nat)
    requires depth > 0 && ReachesIn(h, start, cls, depth - 1) && AllNear(h, start, explored)
    requires forall p :: p in classes ==> IsSuper(h, p, cls)
    requires !SeekCycleAll(h, classes, start, onPath, explored, depth).found
    ensures AllNear(h, start, SeekCycleAll(h, classes, start, onPath, explored, depth).explored)
    decreases Left(depth), 1, |classes|
  {
    hide AllNear;
    if classes == [] {
      // No superclass is left.
    } else {
      assert classes[0] in classes;
      ReachesSnoc(h, start, cls, classes[0], depth - 1);
      ExploredIsNear(h, classes[0], start, onPath, explored, depth);
      var r := SeekCycle(h, classes[0], start, onPath, explored, depth);
      ExploredIsNearAll(h, cls, classes[1..], start, onPath, r.explored, depth);
    }
  }

  lemma {:induction false} ClosedHoldsAbove(
    h: Hierarchy, start: Name, explored: set<Name>, a: Name, b: Name, n: nat)
    requires Closed(h, start, explored, {}) && a in explored && ReachesIn(h, a, b, n)
    ensures b in explored
    decreases n
  {
    if n == 0 {
      // The class itself.
    } else {
      var p: Name :| IsSuper(h, p, a) && ReachesIn(h, p, b, n - 1);
      ClosedHoldsAbove(h, start, explored, p, b, n - 1);
    }
  }

  /** A superclass that lies only beyond the depth limit is reported in every order, cycle or not. */
  lemma {:induction false} FarSuperclassIsReported(h: Hierarchy, start: Name, x: Name)
    requires Reaches(h, start, x) && !Near(h, start, x)
    ensures HasSuperCycle(h, start)
  {
    if !HasSuperCycle(h, start) {
      var explored := SeekCycle(h, start, start, {}, {}, 0).explored;
      NotFoundCloses(h, start, start, {}, {}, 0);
      ExploredIsNear(h, start, start, {}, {}, 0);
      var n: nat :| ReachesIn(h, start, x, n);
      ClosedHoldsAbove(h, start, explored, start, x, n);
    }
  }
}
