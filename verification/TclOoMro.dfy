/** TclOO method resolution order: a two-pass depth-first walk with late placement. */
module TclOoMro {
  type Name = string

  /** Direct superclasses and class-level mixins, by class. */
  datatype Hierarchy = Hierarchy(supers: map<Name, seq<Name>>, mixins: map<Name, seq<Name>>)

  function Listed(m: map<Name, seq<Name>>, cls: Name): (r: seq<Name>)
  {
    if cls in m then m[cls] else []
  }

  const MaxDepth: nat := 1024
  const MaxVisits: nat := 200_000

  /** How many levels the walk may still go up. */
  function Left(depth: nat): (n: nat)
  {
    if depth > MaxDepth then 0 else MaxDepth + 1 - depth
  }

  /** What one pass accumulates: the chain, the visits left, and whether it gave up. */
  datatype Walk = Walk(chain: seq<Name>, budget: nat, aborted: bool)

  function RemoveFirst(xs: seq<Name>, x: Name): (r: seq<Name>)
  {
    if xs == [] then [] else if xs[0] == x then xs[1..] else [xs[0]] + RemoveFirst(xs[1..], x)
  }

  /** Late placement: a class met again moves to the end. */
  function MoveToEnd(xs: seq<Name>, x: Name): (r: seq<Name>)
  {
    RemoveFirst(xs, x) + [x]
  }

  /** `tcloo_dfs`: mixins first, then the class itself when this pass collects it, then the superclasses. */
  function Dfs(h: Hierarchy, cls: Name, building: bool, viaMixin: bool, visiting: set<Name>, depth: nat, w: Walk)
    : (r: Walk)
    decreases Left(depth), 0, 0
  {
    if depth > MaxDepth || w.budget == 0 then w.(aborted := true)
    else
      var w0 := w.(budget := w.budget - 1);
      if cls in visiting then w0
      else
        var inside := visiting + {cls};
        var w1 := DfsAll(h, Listed(h.mixins, cls), building, true, inside, depth + 1, w0);
        var w2 := if building == viaMixin then w1.(chain := MoveToEnd(w1.chain, cls)) else w1;
        DfsAll(h, Listed(h.supers, cls), building, viaMixin, inside, depth + 1, w2)
  }

  function DfsAll(
    h: Hierarchy, classes: seq<Name>, building: bool, viaMixin: bool, visiting: set<Name>, depth: nat, w: Walk)
    : (r: Walk)
    decreases Left(depth), 1, |classes|
  {
    if classes == [] then w
    else
      var next := Dfs(h, classes[0], building, viaMixin, visiting, depth, w);
      DfsAll(h, classes[1..], building, viaMixin, visiting, depth, next)
  }

  // The cycle test.

  datatype Search = Search(found: bool, explored: set<Name>)

  function SeekCycle(h: Hierarchy, cls: Name, start: Name, onPath: set<Name>, explored: set<Name>, depth: nat)
    : (r: Search)
    decreases Left(depth), 0, 0
  {
    if depth > MaxDepth then Search(true, explored)
    else if cls in onPath then Search(cls == start, explored)
    else if cls in explored then Search(false, explored)
    else
      var r := SeekCycleAll(h, Listed(h.supers, cls), start, onPath + {cls}, explored, depth + 1);
      if r.found then r else Search(false, r.explored + {cls})
  }

  function SeekCycleAll(
    h: Hierarchy, classes: seq<Name>, start: Name, onPath: set<Name>, explored: set<Name>, depth: nat)
    : (r: Search)
    decreases Left(depth), 1, |classes|
  {
    if classes == [] then Search(false, explored)
    else
      var r := SeekCycle(h, classes[0], start, onPath, explored, depth);
      if r.found then r else SeekCycleAll(h, classes[1..], start, onPath, r.explored, depth)
  }

  function HasSuperCycle(h: Hierarchy, start: Name): (r: bool)
  {
    SeekCycle(h, start, start, {}, {}, 0).found
  }

  datatype Linearised = Chain(classes: seq<Name>) | CycleDetected | TooComplex

  /** `tcloo_linearise`. */
  function Linearise(h: Hierarchy, start: Name): (r: Linearised)
  {
    if HasSuperCycle(h, start) then CycleDetected
    else
      var first := Dfs(h, start, true, false, {}, 0, Walk([], MaxVisits, false));
      if first.aborted then TooComplex
      else
        var second := Dfs(h, start, false, false, {}, 0, first);
        if second.aborted then TooComplex else Chain(second.chain)
  }

  // Superclasses, direct and indirect.

  ghost predicate IsSuper(h: Hierarchy, p: Name, c: Name)
  {
    p in Listed(h.supers, c)
  }

  /** `b` is `n` superclass steps above `a`. */
  ghost predicate ReachesIn(h: Hierarchy, a: Name, b: Name, n: nat)
    decreases n
  {
    if n == 0 then a == b else exists p: Name :: IsSuper(h, p, a) && ReachesIn(h, p, b, n - 1)
  }

  ghost predicate Reaches(h: Hierarchy, a: Name, b: Name)
  {
    exists n: nat :: ReachesIn(h, a, b, n)
  }

  /** The class is its own indirect superclass. */
  ghost predicate OnCycle(h: Hierarchy, cls: Name)
  {
    exists n: nat :: n > 0 && ReachesIn(h, cls, cls, n)
  }

  lemma {:induction false} ReachesItself(h: Hierarchy, a: Name)
    ensures Reaches(h, a, a)
  {
    assert ReachesIn(h, a, a, 0);
  }

  lemma {:induction false} ReachesThrough(h: Hierarchy, a: Name, p: Name, b: Name)
    requires IsSuper(h, p, a) && Reaches(h, p, b)
    ensures Reaches(h, a, b)
  {
    var n: nat :| ReachesIn(h, p, b, n);
    assert ReachesIn(h, a, b, n + 1);
  }

  lemma {:induction false} ReachesSnoc(h: Hierarchy, a: Name, b: Name, c: Name, n: nat)
    requires ReachesIn(h, a, b, n) && IsSuper(h, c, b)
    ensures ReachesIn(h, a, c, n + 1)
    decreases n
  {
    if n == 0 {
      assert ReachesIn(h, c, c, 0);
    } else {
      var p: Name :| IsSuper(h, p, a) && ReachesIn(h, p, b, n - 1);
      ReachesSnoc(h, p, b, c, n - 1);
    }
  }

  /** Each class is followed by one of its superclasses. */
  ghost predicate IsSuperPath(h: Hierarchy, path: seq<Name>)
  {
    path != [] && forall i :: 0 <= i < |path| - 1 ==> IsSuper(h, path[i + 1], path[i])
  }

  lemma {:induction false} SuperPathReaches(h: Hierarchy, path: seq<Name>)
    requires IsSuperPath(h, path)
    ensures ReachesIn(h, path[0], path[|path| - 1], |path| - 1)
    decreases |path|
  {
    if |path| > 1 {
      var init := path[..|path| - 1];
      SuperPathReaches(h, init);
      ReachesSnoc(h, path[0], init[|init| - 1], path[|path| - 1], |init| - 1);
    } else {
      assert ReachesIn(h, path[0], path[0], 0);
    }
  }

  lemma {:induction false} ReachesBySuperPath(h: Hierarchy, a: Name, b: Name, n: nat) returns (path: seq<Name>)
    requires ReachesIn(h, a, b, n)
    ensures IsSuperPath(h, path) && |path| == n + 1 && path[0] == a && path[n] == b
    decreases n
  {
    if n == 0 {
      path := [a];
    } else {
      var p: Name :| IsSuper(h, p, a) && ReachesIn(h, p, b, n - 1);
      var rest := ReachesBySuperPath(h, p, b, n - 1);
      path := [a] + rest;
      hide IsSuper, ReachesIn;
      assert forall i :: 0 < i < |path| - 1 ==> path[i] == rest[i - 1] && path[i + 1] == rest[i];
    }
  }

  // The walk as it runs.

  /** The per-pass context: the hierarchy, the chain under construction, the path, and the limits. */
  class Context {
    const h: Hierarchy
    const building: bool
    var chain: seq<Name>
    var visiting: set<Name>
    var budget: nat
    var aborted: bool

    ghost function View(): (w: Walk)
      reads this
    {
      Walk(chain, budget, aborted)
    }

    constructor (h: Hierarchy, building: bool, chain: seq<Name>, budget: nat)
      ensures this.h == h && this.building == building && visiting == {} && View() == Walk(chain, budget, false)
    {
      this.h, this.building := h, building;
      this.chain, this.visiting, this.budget, this.aborted := chain, {}, budget, false;
    }

    method Visit(cls: Name, viaMixin: bool, depth: nat)
      modifies this
      ensures View() == Dfs(h, cls, building, viaMixin, old(visiting), depth, old(View()))
      ensures visiting == old(visiting)
      decreases Left(depth), 0, 0
    {
      if depth > MaxDepth || budget == 0 {
        aborted := true;
        return;
      }
      budget := budget - 1;
      if cls in visiting {
        return;
      }
      visiting := visiting + {cls};
      VisitAll(Listed(h.mixins, cls), true, depth + 1);
      if building == viaMixin {
        chain := MoveToEnd(chain, cls);
      }
      VisitAll(Listed(h.supers, cls), viaMixin, depth + 1);
      visiting := visiting - {cls};
    }

    method VisitAll(classes: seq<Name>, viaMixin: bool, depth: nat)
      modifies this
      ensures View() == DfsAll(h, classes, building, viaMixin, old(visiting), depth, old(View()))
      ensures visiting == old(visiting)
      decreases Left(depth), 1, |classes|
    {
      var i := 0;
      assert classes[0..] == classes;
      while i < |classes|
        invariant 0 <= i <= |classes| && visiting == old(visiting)
        invariant DfsAll(h, classes[i..], building, viaMixin, visiting, depth, View()) ==
                  DfsAll(h, classes, building, viaMixin, visiting, depth, old(View()))
      {
        assert classes[i..][1..] == classes[i + 1..];
        Visit(classes[i], viaMixin, depth);
        i := i + 1;
      }
    }
  }

  /** The sets that the recursion of `has_super_cycle` shares. */
  class CycleSearch {
    const h: Hierarchy
    const start: Name
    var onPath: set<Name>
    var explored: set<Name>

    constructor (h: Hierarchy, start: Name)
      ensures this.h == h && this.start == start && onPath == {} && explored == {}
    {
      this.h, this.start, onPath, explored := h, start, {}, {};
    }

    /** The path is left as it was found, unless a cycle ends the search. */
    method Recurse(cls: Name, depth: nat) returns (found: bool)
      modifies this
      ensures var r := SeekCycle(h, cls, start, old(onPath), old(explored), depth);
              found == r.found && (!found ==> explored == r.explored && onPath == old(onPath))
      decreases Left(depth), 0
    {
      if depth > MaxDepth {
        return true;
      }
      if cls in onPath {
        return cls == start;
      }
      if cls in explored {
        return false;
      }
      ghost var before, seen := onPath, explored;
      var parents := Listed(h.supers, cls);
      onPath := onPath + {cls};
      var i := 0;
      assert parents[0..] == parents;
      while i < |parents|
        invariant 0 <= i <= |parents| && onPath == before + {cls}
        invariant SeekCycleAll(h, parents[i..], start, onPath, explored, depth + 1) ==
                  SeekCycleAll(h, parents, start, onPath, seen, depth + 1)
      {
        assert parents[i..][0] == parents[i] && parents[i..][1..] == parents[i + 1..];
        found := Recurse(parents[i], depth + 1);
        if found {
          return;
        }
        i := i + 1;
      }
      assert before + {cls} - {cls} == before;
      onPath := onPath - {cls};
      explored := explored + {cls};
      found := false;
    }
  }

  method TclooLinearise(h: Hierarchy, start: Name) returns (r: Linearised)
    ensures r == Linearise(h, start)
  {
    var search := new CycleSearch(h, start);
    var cyclic := search.Recurse(start, 0);
    if cyclic {
      return CycleDetected;
    }
    var first := new Context(h, true, [], MaxVisits);
    first.Visit(start, false, 0);
    if first.aborted {
      return TooComplex;
    }
    var second := new Context(h, false, first.chain, first.budget);
    second.Visit(start, false, 0);
    if second.aborted {
      return TooComplex;
    }
    return Chain(second.chain);
  }
}
