/** What a computed TclOO method resolution order holds, and in what order. */
module TclOoOrder {
  import opened Sequences
  import opened TclOoMro

  // Lists.

  /** The list without the elements of another. */
  function Without(xs: seq<Name>, ys: seq<Name>): (r: seq<Name>)
  {
    if xs == [] then [] else (if xs[0] in ys then [] else [xs[0]]) + Without(xs[1..], ys)
  }

  lemma {:induction false} WithoutIs(xs: seq<Name>, ys: seq<Name>)
    ensures forall x :: x in Without(xs, ys) <==> x in xs && x !in ys
    ensures Distinct(xs) ==> Distinct(Without(xs, ys))
  {
    if xs == [] {
    } else {
      WithoutIs(xs[1..], ys);
      var rest := Without(xs[1..], ys);
      if Distinct(xs) {
        assert Distinct(xs[1..]);
        assert xs[0] !in xs[1..];
        assert xs[0] !in rest;
      }
    }
  }

  lemma {:induction false} WithoutConcat(a: seq<Name>, b: seq<Name>, ys: seq<Name>)
    ensures Without(a + b, ys) == Without(a, ys) + Without(b, ys)
  {
    if a == [] {
      assert a + b == b;
    } else {
      WithoutConcat(a[1..], b, ys);
      assert (a + b)[1..] == a[1..] + b;
      Associates(if a[0] in ys then [] else [a[0]], Without(a[1..], ys), Without(b, ys));
    }
  }

  lemma {:induction false} WithoutTwice(xs: seq<Name>, a: seq<Name>, b: seq<Name>, c: seq<Name>)
    requires forall x :: x in c <==> x in a || x in b
    ensures Without(Without(xs, a), b) == Without(xs, c)
  {
    if xs == [] {
    } else {
      WithoutTwice(xs[1..], a, b, c);
      if xs[0] !in a {
        assert ([xs[0]] + Without(xs[1..], a))[1..] == Without(xs[1..], a);
      } else {
        assert Without(xs, a) == Without(xs[1..], a);
      }
    }
  }

  lemma {:induction false} RemoveFirstIsWithout(xs: seq<Name>, x: Name)
    requires Distinct(xs)
    ensures RemoveFirst(xs, x) == Without(xs, [x])
  {
    if xs == [] {
    } else {
      assert Distinct(xs[1..]);
      if xs[0] == x {
        assert x !in xs[1..];
        NothingToRemove(xs[1..], [x]);
        assert Without(xs, [x]) == Without(xs[1..], [x]);
      } else {
        RemoveFirstIsWithout(xs[1..], x);
      }
    }
  }

  lemma {:induction false} NothingToRemove(xs: seq<Name>, ys: seq<Name>)
    requires forall x :: x in xs ==> x !in ys
    ensures Without(xs, ys) == xs
  {
    if xs == [] {
    } else {
      assert xs[0] in xs;
      assert forall x :: x in xs[1..] ==> x in xs;
      NothingToRemove(xs[1..], ys);
      HeadTail(xs);
    }
  }

  /** Replacing: the list with the elements of `ys` taken out and `ys` put at the end. */
  function Replace(xs: seq<Name>, ys: seq<Name>): (r: seq<Name>)
  {
    Without(xs, ys) + ys
  }

  lemma {:induction false} ReplaceIs(xs: seq<Name>, ys: seq<Name>)
    ensures forall x :: x in Replace(xs, ys) <==> x in xs || x in ys
    ensures Distinct(xs) && Distinct(ys) ==> Distinct(Replace(xs, ys))
  {
    WithoutIs(xs, ys);
    var kept, r := Without(xs, ys), Replace(xs, ys);
    if Distinct(xs) && Distinct(ys) {
      forall i, j | 0 <= i < j < |r|
        ensures r[i] != r[j]
      {
        assert i < |kept| ==> r[i] == kept[i] && kept[i] in kept;
        assert j >= |kept| ==> r[j] == ys[j - |kept|] && r[j] in ys;
        assert i >= |kept| ==> r[i] == ys[i - |kept|];
      }
    }
  }

  /** Replacing twice is replacing once, by what the second replacement makes of the first. */
  lemma {:induction false} ReplaceTwice(xs: seq<Name>, a: seq<Name>, b: seq<Name>)
    ensures Replace(Replace(xs, a), b) == Replace(xs, Replace(a, b))
  {
    ReplaceIs(a, b);
    WithoutConcat(Without(xs, a), a, b);
    WithoutTwice(xs, a, b, Replace(a, b));
    Associates(Without(xs, Replace(a, b)), Without(a, b), b);
  }

  lemma {:induction false} ReplaceNothing(xs: seq<Name>)
    ensures Replace(xs, []) == xs && Replace([], xs) == xs
  {
    NothingToRemove(xs, []);
  }

  // The walk.

  lemma {:induction false} AbortSticks(
    h: Hierarchy, cls: Name, building: bool, viaMixin: bool, visiting: set<Name>, depth: nat, w: Walk)
    ensures w.aborted ==> Dfs(h, cls, building, viaMixin, visiting, depth, w).aborted
    decreases Left(depth), 0, 0
  {
    if !(depth > MaxDepth || w.budget == 0) && cls !in visiting {
      var inside, w0 := visiting + {cls}, w.(budget := w.budget - 1);
      AbortSticksAll(h, Listed(h.mixins, cls), building, true, inside, depth + 1, w0);
      var w1 := DfsAll(h, Listed(h.mixins, cls), building, true, inside, depth + 1, w0);
      var w2 := if building == viaMixin then w1.(chain := MoveToEnd(w1.chain, cls)) else w1;
      AbortSticksAll(h, Listed(h.supers, cls), building, viaMixin, inside, depth + 1, w2);
    }
  }

  lemma {:induction false} AbortSticksAll(
    h: Hierarchy, classes: seq<Name>, building: bool, viaMixin: bool, visiting: set<Name>, depth: nat, w: Walk)
    ensures w.aborted ==> DfsAll(h, classes, building, viaMixin, visiting, depth, w).aborted
    decreases Left(depth), 1, |classes|
  {
    if classes == [] {
    } else {
      AbortSticks(h, classes[0], building, viaMixin, visiting, depth, w);
      var next := Dfs(h, classes[0], building, viaMixin, visiting, depth, w);
      AbortSticksAll(h, classes[1..], building, viaMixin, visiting, depth, next);
    }
  }

  lemma {:induction false} MovedIsDistinct(xs: seq<Name>, x: Name)
    requires Distinct(xs)
    ensures Distinct(MoveToEnd(xs, x)) && MoveToEnd(xs, x) == Replace(xs, [x])
  {
    RemoveFirstIsWithout(xs, x);
    ReplaceIs(xs, [x]);
  }

  /** No pass ever lists a class twice. */
  lemma {:induction false} StaysDistinct(
    h: Hierarchy, cls: Name, building: bool, viaMixin: bool, visiting: set<Name>, depth: nat, w: Walk)
    requires Distinct(w.chain)
    ensures Distinct(Dfs(h, cls, building, viaMixin, visiting, depth, w).chain)
    decreases Left(depth), 0, 0
  {
    if !(depth > MaxDepth || w.budget == 0) && cls !in visiting {
      var inside, w0 := visiting + {cls}, w.(budget := w.budget - 1);
      StaysDistinctAll(h, Listed(h.mixins, cls), building, true, inside, depth + 1, w0);
      var w1 := DfsAll(h, Listed(h.mixins, cls), building, true, inside, depth + 1, w0);
      MovedIsDistinct(w1.chain, cls);
      var w2 := if building == viaMixin then w1.(chain := MoveToEnd(w1.chain, cls)) else w1;
      StaysDistinctAll(h, Listed(h.supers, cls), building, viaMixin, inside, depth + 1, w2);
    }
  }

  lemma {:induction false} StaysDistinctAll(
    h: Hierarchy, classes: seq<Name>, building: bool, viaMixin: bool, visiting: set<Name>, depth: nat, w: Walk)
    requires Distinct(w.chain)
    ensures Distinct(DfsAll(h, classes, building, viaMixin, visiting, depth, w).chain)
    decreases Left(depth), 1, |classes|
  {
    if classes == [] {
    } else {
      StaysDistinct(h, classes[0], building, viaMixin, visiting, depth, w);
      var next := Dfs(h, classes[0], building, viaMixin, visiting, depth, w);
      StaysDistinctAll(h, classes[1..], building, viaMixin, visiting, depth, next);
    }
  }

  /** The second pass passes over everything it reaches through a mixin. */
  lemma {:induction false} MixinsLeaveChain(h: Hierarchy, cls: Name, visiting: set<Name>, depth: nat, w: Walk)
    ensures Dfs(h, cls, false, true, visiting, depth, w).chain == w.chain
    decreases Left(depth), 0, 0
  {
    if !(depth > MaxDepth || w.budget == 0) && cls !in visiting {
      var inside, w0 := visiting + {cls}, w.(budget := w.budget - 1);
      MixinsLeaveChainAll(h, Listed(h.mixins, cls), inside, depth + 1, w0);
      var w1 := DfsAll(h, Listed(h.mixins, cls), false, true, inside, depth + 1, w0);
      MixinsLeaveChainAll(h, Listed(h.supers, cls), inside, depth + 1, w1);
    }
  }

  lemma {:induction false} MixinsLeaveChainAll(
    h: Hierarchy, classes: seq<Name>, visiting: set<Name>, depth: nat, w: Walk)
    ensures DfsAll(h, classes, false, true, visiting, depth, w).chain == w.chain
    decreases Left(depth), 1, |classes|
  {
    if classes == [] {
    } else {
      MixinsLeaveChain(h, classes[0], visiting, depth, w);
      MixinsLeaveChainAll(h, classes[1..], visiting, depth, Dfs(h, classes[0], false, true, visiting, depth, w));
    }
  }

  lemma {:induction false} MovedHolds(xs: seq<Name>, x: Name)
    ensures forall y :: y in MoveToEnd(xs, x) <==> y in xs || y == x
  {
    RemovedHolds(xs, x);
  }

  lemma {:induction false} RemovedHolds(xs: seq<Name>, x: Name)
    ensures forall y :: y != x ==> (y in RemoveFirst(xs, x) <==> y in xs)
    ensures forall y :: y in RemoveFirst(xs, x) ==> y in xs
  {
    if xs != [] && xs[0] != x {
      RemovedHolds(xs[1..], x);
    }
  }

  /** What is in the chain stays in the chain. */
  lemma {:induction false} StaysIn(
    h: Hierarchy, cls: Name, building: bool, viaMixin: bool, visiting: set<Name>, depth: nat, w: Walk, x: Name)
    requires x in w.chain
    ensures x in Dfs(h, cls, building, viaMixin, visiting, depth, w).chain
    decreases Left(depth), 0, 0
  {
    if depth <= MaxDepth && w.budget > 0 && cls !in visiting {
      var w0, inside := w.(budget := w.budget - 1), visiting + {cls};
      var w1 := DfsAll(h, Listed(h.mixins, cls), building, true, inside, depth + 1, w0);
      var w2 := if building == viaMixin then w1.(chain := MoveToEnd(w1.chain, cls)) else w1;
      StaysInAll(h, Listed(h.mixins, cls), building, true, inside, depth + 1, w0, x);
      MovedHolds(w1.chain, cls);
      StaysInAll(h, Listed(h.supers, cls), building, viaMixin, inside, depth + 1, w2, x);
    }
  }

  lemma {:induction false} StaysInAll(
    h: Hierarchy, classes: seq<Name>, building: bool, viaMixin: bool, visiting: set<Name>, depth: nat, w: Walk, x: Name)
    requires x in w.chain
    ensures x in DfsAll(h, classes, building, viaMixin, visiting, depth, w).chain
    decreases Left(depth), 1, |classes|
  {
    if classes == [] {
    } else {
      StaysIn(h, classes[0], building, viaMixin, visiting, depth, w, x);
      StaysInAll(h, classes[1..], building, viaMixin, visiting, depth,
                 Dfs(h, classes[0], building, viaMixin, visiting, depth, w), x);
    }
  }


  /** A pass works on a chain as it would on an empty one: what it collects there goes to the end. */
  lemma {:induction false} WorksApart(
    h: Hierarchy, cls: Name, building: bool, viaMixin: bool, visiting: set<Name>, depth: nat, w: Walk)
    requires Distinct(w.chain)
    ensures var t := Dfs(h, cls, building, viaMixin, visiting, depth, w.(chain := []));
            Dfs(h, cls, building, viaMixin, visiting, depth, w) == t.(chain := Replace(w.chain, t.chain))
    decreases Left(depth), 0, 0
  {
    ReplaceNothing(w.chain);
    hide Distinct, Replace, MoveToEnd;
    if depth > MaxDepth || w.budget == 0 || cls in visiting {
      // Nothing is collected.
    } else {
      var w0, inside := w.(budget := w.budget - 1), visiting + {cls};
      var mixins, supers := Listed(h.mixins, cls), Listed(h.supers, cls);
      var t1 := DfsAll(h, mixins, building, true, inside, depth + 1, w0.(chain := []));
      var w1 := DfsAll(h, mixins, building, true, inside, depth + 1, w0);
      WorksApartAll(h, mixins, building, true, inside, depth + 1, w0);
      StaysDistinctAll(h, mixins, building, true, inside, depth + 1, w0);
      StaysDistinctAll(h, mixins, building, true, inside, depth + 1, w0.(chain := []));
      var t2 := if building == viaMixin then t1.(chain := MoveToEnd(t1.chain, cls)) else t1;
      var w2 := if building == viaMixin then w1.(chain := MoveToEnd(w1.chain, cls)) else w1;
      MovesApart(w.chain, t1.chain, cls);
      assert w2.chain == Replace(w.chain, t2.chain) && Distinct(w2.chain) && Distinct(t2.chain);
      WorksApartAll(h, supers, building, viaMixin, inside, depth + 1, w2);
      WorksApartAll(h, supers, building, viaMixin, inside, depth + 1, t2);
      assert w2.(chain := []) == t2.(chain := []);
      var t3 := DfsAll(h, supers, building, viaMixin, inside, depth + 1, t2.(chain := []));
      ReplaceTwice(w.chain, t2.chain, t3.chain);
    }
  }

  lemma {:induction false} MovesApart(xs: seq<Name>, ts: seq<Name>, x: Name)
    requires Distinct(Replace(xs, ts)) && Distinct(ts)
    ensures Distinct(MoveToEnd(Replace(xs, ts), x)) && Distinct(MoveToEnd(ts, x))
    ensures MoveToEnd(Replace(xs, ts), x) == Replace(xs, MoveToEnd(ts, x))
  {
    MovedIsDistinct(Replace(xs, ts), x);
    MovedIsDistinct(ts, x);
    ReplaceTwice(xs, ts, [x]);
  }

  lemma {:induction false} WorksApartAll(
    h: Hierarchy, classes: seq<Name>, building: bool, viaMixin: bool, visiting: set<Name>, depth: nat, w: Walk)
    requires Distinct(w.chain)
    ensures var t := DfsAll(h, classes, building, viaMixin, visiting, depth, w.(chain := []));
            DfsAll(h, classes, building, viaMixin, visiting, depth, w) == t.(chain := Replace(w.chain, t.chain))
    decreases Left(depth), 1, |classes|
  {
    if classes == [] {
      ReplaceNothing(w.chain);
    } else {
      var t1 := Dfs(h, classes[0], building, viaMixin, visiting, depth, w.(chain := []));
      var w1 := Dfs(h, classes[0], building, viaMixin, visiting, depth, w);
      WorksApart(h, classes[0], building, viaMixin, visiting, depth, w);
      StaysDistinct(h, classes[0], building, viaMixin, visiting, depth, w);
      StaysDistinct(h, classes[0], building, viaMixin, visiting, depth, w.(chain := []));
      WorksApartAll(h, classes[1..], building, viaMixin, visiting, depth, w1);
      WorksApartAll(h, classes[1..], building, viaMixin, visiting, depth, t1);
      assert w1.(chain := []) == t1.(chain := []);
      var t2 := DfsAll(h, classes[1..], building, viaMixin, visiting, depth, t1.(chain := []));
      ReplaceTwice(w.chain, t1.chain, t2.chain);
    }
  }

  // What a pass collects.

  /** The walk can follow the path, and at its end has come through a mixin or not, as `ends` says. */
  ghost predicate Walks(h: Hierarchy, path: seq<Name>, viaMixin: bool, ends: bool)
    decreases |path|
  {
    path != [] &&
    if |path| == 1 then viaMixin == ends
    else (path[1] in Listed(h.mixins, path[0]) && Walks(h, path[1..], true, ends))
         || (path[1] in Listed(h.supers, path[0]) && Walks(h, path[1..], viaMixin, ends))
  }

  ghost predicate Leads(path: seq<Name>, a: Name, b: Name)
  {
    path != [] && path[0] == a && path[|path| - 1] == b
  }

  /** The path meets no class twice, and none of those given. */
  ghost predicate Straight(path: seq<Name>, visiting: set<Name>)
  {
    Distinct(path) && forall x :: x in path ==> x !in visiting
  }

  /** A straight path leads from `a` to `b` and ends as `ends` says. */
  ghost predicate WalksTo(h: Hierarchy, a: Name, viaMixin: bool, visiting: set<Name>, b: Name, ends: bool)
  {
    exists path: seq<Name> :: Leads(path, a, b) && Straight(path, visiting) && Walks(h, path, viaMixin, ends)
  }

  lemma {:induction false} StraightTail(path: seq<Name>, visiting: set<Name>)
    requires Straight(path, visiting) && path != []
    ensures Straight(path[1..], visiting + {path[0]}) && path[0] !in visiting
    ensures |path| > 1 ==> Leads(path[1..], path[1], path[|path| - 1])
  {
    var rest := path[1..];
    assert forall i :: 0 <= i < |rest| ==> rest[i] == path[i + 1];
    assert path[0] in path;
  }

  lemma {:induction false} StraightCons(a: Name, path: seq<Name>, visiting: set<Name>)
    requires Straight(path, visiting + {a}) && a !in visiting
    ensures Straight([a] + path, visiting)
  {
    assert a !in path;
  }

  /** A pass that does not give up collects the end of every straight path that ends on its side. */
  lemma {:induction false} Collects(
    h: Hierarchy, path: seq<Name>, building: bool, viaMixin: bool, visiting: set<Name>, depth: nat, w: Walk)
    requires Walks(h, path, viaMixin, building) && Straight(path, visiting)
    requires !Dfs(h, path[0], building, viaMixin, visiting, depth, w).aborted
    ensures path[|path| - 1] in Dfs(h, path[0], building, viaMixin, visiting, depth, w).chain
    decreases Left(depth), 0, 0
  {
    var cls, last := path[0], path[|path| - 1];
    StraightTail(path, visiting);
    hide Straight;
    var w0, inside := w.(budget := w.budget - 1), visiting + {cls};
    var w1 := DfsAll(h, Listed(h.mixins, cls), building, true, inside, depth + 1, w0);
    var w2 := if building == viaMixin then w1.(chain := MoveToEnd(w1.chain, cls)) else w1;
    AbortSticksAll(h, Listed(h.supers, cls), building, viaMixin, inside, depth + 1, w2);
    MovedHolds(w1.chain, cls);
    if |path| == 1 {
      StaysInAll(h, Listed(h.supers, cls), building, viaMixin, inside, depth + 1, w2, last);
    } else if path[1] in Listed(h.mixins, cls) && Walks(h, path[1..], true, building) {
      CollectsAll(h, Listed(h.mixins, cls), path[1..], building, true, inside, depth + 1, w0);
      StaysInAll(h, Listed(h.supers, cls), building, viaMixin, inside, depth + 1, w2, last);
    } else {
      CollectsAll(h, Listed(h.supers, cls), path[1..], building, viaMixin, inside, depth + 1, w2);
    }
  }

  lemma {:induction false} CollectsAll(
    h: Hierarchy, classes: seq<Name>, path: seq<Name>, building: bool, viaMixin: bool, visiting: set<Name>,
    depth: nat, w: Walk)
    requires Walks(h, path, viaMixin, building) && Straight(path, visiting) && path[0] in classes
    requires !DfsAll(h, classes, building, viaMixin, visiting, depth, w).aborted
    ensures path[|path| - 1] in DfsAll(h, classes, building, viaMixin, visiting, depth, w).chain
    decreases Left(depth), 1, |classes|
  {
    var last := path[|path| - 1];
    hide Straight, Walks;
    var next := Dfs(h, classes[0], building, viaMixin, visiting, depth, w);
    AbortSticksAll(h, classes[1..], building, viaMixin, visiting, depth, next);
    if classes[0] == path[0] {
      Collects(h, path, building, viaMixin, visiting, depth, w);
      StaysInAll(h, classes[1..], building, viaMixin, visiting, depth, next, last);
    } else {
      CollectsAll(h, classes[1..], path, building, viaMixin, visiting, depth, next);
    }
  }

  /** A first step leads the walk on. */
  lemma {:induction false} StepsOn(
    h: Hierarchy, a: Name, viaMixin: bool, visiting: set<Name>, p: Name, via: bool, b: Name, ends: bool)
    requires a !in visiting && WalksTo(h, p, via, visiting + {a}, b, ends)
    requires (via && p in Listed(h.mixins, a)) || (via == viaMixin && p in Listed(h.supers, a))
    ensures WalksTo(h, a, viaMixin, visiting, b, ends)
  {
    var path :| Leads(path, p, b) && Straight(path, visiting + {a}) && Walks(h, path, via, ends);
    var longer := [a] + path;
    StraightCons(a, path, visiting);
    assert longer[1..] == path;
    assert Leads(longer, a, b) && Walks(h, longer, viaMixin, ends);
  }

  lemma {:induction false} WalksToItself(h: Hierarchy, a: Name, viaMixin: bool, visiting: set<Name>)
    requires a !in visiting
    ensures WalksTo(h, a, viaMixin, visiting, a, viaMixin)
  {
    assert Leads([a], a, a) && Straight([a], visiting) && Walks(h, [a], viaMixin, viaMixin);
  }

  /** A pass adds nothing but ends of such paths. */
  lemma {:induction false} AddsWalked(
    h: Hierarchy, cls: Name, building: bool, viaMixin: bool, visiting: set<Name>, depth: nat, w: Walk, x: Name)
    requires x in Dfs(h, cls, building, viaMixin, visiting, depth, w).chain
    ensures x in w.chain || WalksTo(h, cls, viaMixin, visiting, x, building)
    decreases Left(depth), 0, 0
  {
    hide WalksTo;
    if depth > MaxDepth || w.budget == 0 || cls in visiting {
      // Nothing is added.
    } else {
      var w0, inside := w.(budget := w.budget - 1), visiting + {cls};
      var w1 := DfsAll(h, Listed(h.mixins, cls), building, true, inside, depth + 1, w0);
      var w2 := if building == viaMixin then w1.(chain := MoveToEnd(w1.chain, cls)) else w1;
      AddsWalkedAll(h, Listed(h.supers, cls), building, viaMixin, inside, depth + 1, w2, x);
      MovedHolds(w1.chain, cls);
      WalksToItself(h, cls, viaMixin, visiting);
      if x in w1.chain {
        AddsWalkedAll(h, Listed(h.mixins, cls), building, true, inside, depth + 1, w0, x);
        StepsOnMixin(h, cls, viaMixin, visiting, x, building);
      }
      StepsOnSuper(h, cls, viaMixin, visiting, x, building);
    }
  }

  lemma {:induction false} StepsOnMixin(
    h: Hierarchy, cls: Name, viaMixin: bool, visiting: set<Name>, x: Name, ends: bool)
    requires cls !in visiting
    ensures SomeWalksTo(h, Listed(h.mixins, cls), true, visiting + {cls}, x, ends) ==>
              WalksTo(h, cls, viaMixin, visiting, x, ends)
  {
    hide WalksTo;
    if SomeWalksTo(h, Listed(h.mixins, cls), true, visiting + {cls}, x, ends) {
      var p :| p in Listed(h.mixins, cls) && WalksTo(h, p, true, visiting + {cls}, x, ends);
      StepsOn(h, cls, viaMixin, visiting, p, true, x, ends);
    }
  }

  lemma {:induction false} StepsOnSuper(
    h: Hierarchy, cls: Name, viaMixin: bool, visiting: set<Name>, x: Name, ends: bool)
    requires cls !in visiting
    ensures SomeWalksTo(h, Listed(h.supers, cls), viaMixin, visiting + {cls}, x, ends) ==>
              WalksTo(h, cls, viaMixin, visiting, x, ends)
  {
    hide WalksTo;
    if SomeWalksTo(h, Listed(h.supers, cls), viaMixin, visiting + {cls}, x, ends) {
      var p :| p in Listed(h.supers, cls) && WalksTo(h, p, viaMixin, visiting + {cls}, x, ends);
      StepsOn(h, cls, viaMixin, visiting, p, viaMixin, x, ends);
    }
  }

  ghost predicate SomeWalksTo(
    h: Hierarchy, classes: seq<Name>, viaMixin: bool, visiting: set<Name>, x: Name, ends: bool)
  {
    exists p :: p in classes && WalksTo(h, p, viaMixin, visiting, x, ends)
  }

  lemma {:induction false} AddsWalkedAll(
    h: Hierarchy, classes: seq<Name>, building: bool, viaMixin: bool, visiting: set<Name>, depth: nat, w: Walk,
    x: Name)
    requires x in DfsAll(h, classes, building, viaMixin, visiting, depth, w).chain
    ensures x in w.chain || SomeWalksTo(h, classes, viaMixin, visiting, x, building)
    decreases Left(depth), 1, |classes|
  {
    hide WalksTo;
    if classes == [] {
      // Nothing is added.
    } else {
      var next := Dfs(h, classes[0], building, viaMixin, visiting, depth, w);
      AddsWalkedAll(h, classes[1..], building, viaMixin, visiting, depth, next, x);
      if x in next.chain {
        AddsWalked(h, classes[0], building, viaMixin, visiting, depth, w, x);
      }
    }
  }

  /** From the start, a pass that does not give up adds exactly the ends of the straight paths on its side. */
  lemma {:induction false} PassCollects(h: Hierarchy, start: Name, building: bool, w: Walk, x: Name)
    requires !Dfs(h, start, building, false, {}, 0, w).aborted
    ensures x in Dfs(h, start, building, false, {}, 0, w).chain <==>
              x in w.chain || WalksTo(h, start, false, {}, x, building)
  {
    if WalksTo(h, start, false, {}, x, building) {
      var path :| Leads(path, start, x) && Straight(path, {}) && Walks(h, path, false, building);
      Collects(h, path, building, false, {}, 0, w);
    }
    if x in w.chain {
      StaysIn(h, start, building, false, {}, 0, w, x);
    }
    if x in Dfs(h, start, building, false, {}, 0, w).chain {
      AddsWalked(h, start, building, false, {}, 0, w, x);
    }
  }

  // Paths that meet a class twice add nothing.

  /** Each class is followed by one of its mixins or superclasses. */
  ghost predicate IsPath(h: Hierarchy, path: seq<Name>)
  {
    path != [] && forall i :: 0 <= i < |path| - 1 ==> IsParent(h, path[i + 1], path[i])
  }

  ghost predicate IsParent(h: Hierarchy, p: Name, c: Name)
  {
    p in Listed(h.mixins, c) || p in Listed(h.supers, c)
  }

  /** `b` is `a`, or is above it by way of superclasses and mixins. */
  ghost predicate Inherits(h: Hierarchy, a: Name, b: Name)
  {
    exists path: seq<Name> :: IsPath(h, path) && Leads(path, a, b)
  }

  /** The path with a loop cut out. */
  ghost function Cut(path: seq<Name>, i: nat, j: nat): (r: seq<Name>)
    requires i < j < |path|
  {
    path[..i] + path[j..]
  }

  /** A path that meets a class twice can be cut short, step by step; at last it meets none twice. The steps of
      the result are steps of the path. */
  lemma {:induction false} Straighten(path: seq<Name>, a: Name, b: Name) returns (straight: seq<Name>)
    requires Leads(path, a, b)
    ensures Leads(straight, a, b) && Distinct(straight) && StepsAmong(straight, path)
    decreases |path|
  {
    if Distinct(path) {
      straight := path;
      assert forall i :: 0 <= i < |path| - 1 ==> IsStep(path, path[i], path[i + 1], i);
    } else {
      var i, j :| 0 <= i < j < |path| && path[i] == path[j];
      CutKeepsSteps(path, i, j);
      assert Leads(Cut(path, i, j), a, b);
      hide Distinct;
      straight := Straighten(Cut(path, i, j), a, b);
      StepsAmongOn(straight, Cut(path, i, j), path);
    }
  }

  ghost predicate IsStep(path: seq<Name>, a: Name, b: Name, k: int)
  {
    0 <= k < |path| - 1 && path[k] == a && path[k + 1] == b
  }

  ghost predicate HasStep(path: seq<Name>, a: Name, b: Name)
  {
    exists k :: IsStep(path, a, b, k)
  }

  ghost predicate StepsAmong(part: seq<Name>, path: seq<Name>)
  {
    forall i :: 0 <= i < |part| - 1 ==> HasStep(path, part[i], part[i + 1])
  }

  lemma {:induction false} StepsAmongOn(a: seq<Name>, b: seq<Name>, c: seq<Name>)
    requires StepsAmong(a, b) && StepsAmong(b, c)
    ensures StepsAmong(a, c)
  {
    forall i | 0 <= i < |a| - 1
      ensures HasStep(c, a[i], a[i + 1])
    {
      var k :| IsStep(b, a[i], a[i + 1], k);
      assert HasStep(c, b[k], b[k + 1]);
    }
  }

  lemma {:induction false} CutKeepsSteps(path: seq<Name>, i: nat, j: nat)
    requires i < j < |path| && path[i] == path[j]
    ensures StepsAmong(Cut(path, i, j), path)
  {
    var cut := Cut(path, i, j);
    forall k | 0 <= k < |cut| - 1
      ensures HasStep(path, cut[k], cut[k + 1])
    {
      var at := if k < i then k else k - i + j;
      assert IsStep(path, cut[k], cut[k + 1], at);
    }
  }

  lemma {:induction false} PathWalks(h: Hierarchy, path: seq<Name>, viaMixin: bool)
    requires IsPath(h, path)
    ensures Walks(h, path, viaMixin, true) || Walks(h, path, viaMixin, false)
    decreases |path|
  {
    if |path| == 1 {
      // The walk ends as it began.
    } else {
      var rest := path[1..];
      assert IsParent(h, path[0 + 1], path[0]);
      forall i | 0 <= i < |rest| - 1
        ensures IsParent(h, rest[i + 1], rest[i])
      {
        assert IsParent(h, path[(i + 1) + 1], path[i + 1]);
      }
      PathWalks(h, rest, true);
      PathWalks(h, rest, viaMixin);
    }
  }

  lemma {:induction false} WalkIsPath(h: Hierarchy, path: seq<Name>, viaMixin: bool, ends: bool)
    requires Walks(h, path, viaMixin, ends)
    ensures IsPath(h, path)
    ensures !ends ==> !viaMixin && IsSuperPath(h, path)
    decreases |path|
  {
    if |path| == 1 {
      // No step.
    } else {
      var rest := path[1..];
      if path[1] in Listed(h.mixins, path[0]) && Walks(h, rest, true, ends) {
        WalkIsPath(h, rest, true, ends);
      } else {
        WalkIsPath(h, rest, viaMixin, ends);
      }
      assert forall i :: 0 < i < |path| - 1 ==> path[i] == rest[i - 1] && path[i + 1] == rest[i];
    }
  }

  lemma {:induction false} SuperPathWalks(h: Hierarchy, path: seq<Name>)
    requires IsSuperPath(h, path)
    ensures Walks(h, path, false, false)
    decreases |path|
  {
    if |path| == 1 {
      // No step.
    } else {
      var rest := path[1..];
      assert IsSuper(h, path[0 + 1], path[0]);
      forall i | 0 <= i < |rest| - 1
        ensures IsSuper(h, rest[i + 1], rest[i])
      {
        assert IsSuper(h, path[(i + 1) + 1], path[i + 1]);
      }
      SuperPathWalks(h, rest);
    }
  }

  /** Straight paths without a mixin lead to exactly the direct and indirect superclasses. */
  lemma {:induction false} WalksToSupers(h: Hierarchy, start: Name, x: Name)
    ensures WalksTo(h, start, false, {}, x, false) <==> Reaches(h, start, x)
  {
    if WalksTo(h, start, false, {}, x, false) {
      var path :| Leads(path, start, x) && Straight(path, {}) && Walks(h, path, false, false);
      WalkIsPath(h, path, false, false);
      SuperPathReaches(h, path);
    }
    if Reaches(h, start, x) {
      var n: nat :| ReachesIn(h, start, x, n);
      var any := ReachesBySuperPath(h, start, x, n);
      var path := Straighten(any, start, x);
      StraightSupers(h, any, path);
      SuperPathWalks(h, path);
      assert Straight(path, {});
    }
  }

  lemma {:induction false} StraightSupers(h: Hierarchy, any: seq<Name>, path: seq<Name>)
    requires IsSuperPath(h, any) && StepsAmong(path, any) && path != []
    ensures IsSuperPath(h, path)
  {
    hide IsSuper;
    forall i | 0 <= i < |path| - 1
      ensures IsSuper(h, path[i + 1], path[i])
    {
      var k :| IsStep(any, path[i], path[i + 1], k);
      assert IsSuper(h, any[k + 1], any[k]);
    }
  }

  /** Straight paths of either kind lead to exactly the classes inherited from. */
  lemma {:induction false} WalksToInherited(h: Hierarchy, start: Name, x: Name)
    ensures Inherits(h, start, x) <==>
              WalksTo(h, start, false, {}, x, true) || WalksTo(h, start, false, {}, x, false)
  {
    if Inherits(h, start, x) {
      var any :| IsPath(h, any) && Leads(any, start, x);
      var path := Straighten(any, start, x);
      StraightParents(h, any, path);
      PathWalks(h, path, false);
      assert Straight(path, {});
    }
    if ends :| WalksTo(h, start, false, {}, x, ends) {
      var path :| Leads(path, start, x) && Straight(path, {}) && Walks(h, path, false, ends);
      WalkIsPath(h, path, false, ends);
    }
  }

  lemma {:induction false} StraightParents(h: Hierarchy, any: seq<Name>, path: seq<Name>)
    requires IsPath(h, any) && StepsAmong(path, any) && path != []
    ensures IsPath(h, path)
  {
    hide IsParent;
    forall i | 0 <= i < |path| - 1
      ensures IsParent(h, path[i + 1], path[i])
    {
      var k :| IsStep(any, path[i], path[i + 1], k);
      assert IsParent(h, any[k + 1], any[k]);
    }
  }

  // The two parts of a chain.

  /** What the first pass collects. */
  ghost function FirstPass(h: Hierarchy, start: Name): (w: Walk)
  {
    Dfs(h, start, true, false, {}, 0, Walk([], MaxVisits, false))
  }

  /** What the second pass would collect alone: the superclass part. */
  ghost function SuperPart(h: Hierarchy, start: Name): (r: seq<Name>)
  {
    Dfs(h, start, false, false, {}, 0, FirstPass(h, start).(chain := [])).chain
  }

  /** What the first pass collected and the second did not move. */
  ghost function MixinPart(h: Hierarchy, start: Name): (r: seq<Name>)
  {
    Without(FirstPass(h, start).chain, SuperPart(h, start))
  }

  /** The class is reached through a mixin by a path the walk can follow. */
  ghost predicate OnMixinPath(h: Hierarchy, start: Name, x: Name)
  {
    WalksTo(h, start, false, {}, x, true)
  }

  /** A computed chain is the mixin part and then the superclass part, whatever cycles there are. The superclass
      part begins with the class and holds exactly its direct and indirect superclasses; the mixin part holds
      exactly the other classes that are reached through a mixin. */
  lemma {:induction false} ChainHasTwoParts(h: Hierarchy, start: Name)
    requires Linearise(h, start).Chain?
    ensures var mixed, supers := MixinPart(h, start), SuperPart(h, start);
      && Linearise(h, start).classes == mixed + supers && Distinct(mixed + supers)
      && supers != [] && supers[0] == start
      && (forall x :: x in supers <==> Reaches(h, start, x))
      && (forall x :: x in mixed <==> OnMixinPath(h, start, x) && !Reaches(h, start, x))
  {
    var w, first := Walk([], MaxVisits, false), FirstPass(h, start);
    var supers := SuperPart(h, start);
    StaysDistinct(h, start, true, false, {}, 0, w);
    StaysDistinct(h, start, false, false, {}, 0, first);
    StaysDistinct(h, start, false, false, {}, 0, first.(chain := []));
    WorksApart(h, start, false, false, {}, 0, first);
    WithoutIs(first.chain, supers);
    forall x
      ensures x in supers <==> Reaches(h, start, x)
      ensures x in first.chain <==> OnMixinPath(h, start, x)
    {
      PassCollects(h, start, false, first.(chain := []), x);
      PassCollects(h, start, true, w, x);
      WalksToSupers(h, start, x);
    }
    StartLeads(h, start, first.(chain := []));
  }

  lemma {:induction false} WalksOutside(
    h: Hierarchy, classes: seq<Name>, viaMixin: bool, visiting: set<Name>, x: Name, ends: bool)
    ensures SomeWalksTo(h, classes, viaMixin, visiting, x, ends) ==> x !in visiting
  {
    assert forall path: seq<Name> :: path != [] ==> path[|path| - 1] in path;
  }

  /** The start is on the path all the time, so it is never moved behind its superclasses. */
  lemma {:induction false} StartLeads(h: Hierarchy, start: Name, w: Walk)
    requires w.chain == [] && !Dfs(h, start, false, false, {}, 0, w).aborted
    ensures var r := Dfs(h, start, false, false, {}, 0, w).chain; r != [] && r[0] == start
  {
    var w0, inside, supers := w.(budget := w.budget - 1), {} + {start}, Listed(h.supers, start);
    var w1 := DfsAll(h, Listed(h.mixins, start), false, true, inside, 1, w0);
    MixinsLeaveChainAll(h, Listed(h.mixins, start), inside, 1, w0);
    var w2 := w1.(chain := [start]);
    assert MoveToEnd([], start) == [start];
    var t := DfsAll(h, supers, false, false, inside, 1, w2.(chain := [])).chain;
    WorksApartAll(h, supers, false, false, inside, 1, w2);
    if start in t {
      AddsWalkedAll(h, supers, false, false, inside, 1, w2.(chain := []), start);
    }
    WalksOutside(h, supers, false, inside, start, false);
    NothingToRemove([start], t);
  }

  /** A computed chain holds, each once, exactly the classes that the class inherits from by way of
      superclasses and mixins, whatever cycles there are among them. */
  lemma {:induction false} ChainHoldsAllInherited(h: Hierarchy, start: Name, x: Name)
    requires Linearise(h, start).Chain?
    ensures Distinct(Linearise(h, start).classes)
    ensures x in Linearise(h, start).classes <==> Inherits(h, start, x)
  {
    ChainHasTwoParts(h, start);
    WalksToInherited(h, start, x);
    WalksToSupers(h, start, x);
  }

  // Mixins first.

  /** The documented order: what is reached through a mixin precedes what is reached through superclasses alone. */
  ghost predicate MixinPathsFirst(h: Hierarchy, start: Name, chain: seq<Name>)
  {
    forall i, j | 0 <= i < |chain| && 0 <= j < |chain| && i != j ::
      OnMixinPath(h, start, chain[i]) && Reaches(h, start, chain[j]) ==> i < j
  }

  /** A listed class stands before every superclass, the class itself included, exactly when it is none of them. */
  lemma {:induction false} BeforeSupersExactlyWhen(h: Hierarchy, start: Name, k: nat)
    requires Linearise(h, start).Chain? && k < |Linearise(h, start).classes|
    ensures var chain := Linearise(h, start).classes;
      (forall j :: 0 <= j < |chain| && Reaches(h, start, chain[j]) ==> k < j) <==> !Reaches(h, start, chain[k])
  {
    ChainHasTwoParts(h, start);
    var mixed, supers := MixinPart(h, start), SuperPart(h, start);
    hide MixinPart, SuperPart, Reaches, OnMixinPath, Linearise, Distinct;
    var chain := mixed + supers;
    InPart(mixed, supers, k);
    forall j | 0 <= j < |chain| && Reaches(h, start, chain[j])
      ensures j >= |mixed|
    {
      InPart(mixed, supers, j);
    }
  }

  lemma {:induction false} InPart(a: seq<Name>, b: seq<Name>, i: nat)
    requires i < |a + b|
    ensures i < |a| ==> (a + b)[i] in a
    ensures i >= |a| ==> (a + b)[i] in b
  {
  }

  lemma {:induction false} StartIsOnNoMixinPath(h: Hierarchy, start: Name)
    ensures !OnMixinPath(h, start, start)
  {
    forall path: seq<Name> | Leads(path, start, start) && Straight(path, {})
      ensures !Walks(h, path, false, true)
    {
      assert |path| == 1;
    }
  }

  /** The documented order holds exactly when no superclass is reached through a mixin as well. */
  lemma {:induction false} MixinPathsFirstExactlyWhen(h: Hierarchy, start: Name)
    requires Linearise(h, start).Chain?
    ensures MixinPathsFirst(h, start, Linearise(h, start).classes) <==>
              forall x: Name :: OnMixinPath(h, start, x) ==> !Reaches(h, start, x)
  {
    ChainHasTwoParts(h, start);
    var mixed, supers := MixinPart(h, start), SuperPart(h, start);
    hide MixinPart, SuperPart, Reaches, OnMixinPath, Linearise, Distinct;
    var chain := mixed + supers;
    StartIsOnNoMixinPath(h, start);
    if x: Name :| OnMixinPath(h, start, x) && Reaches(h, start, x) {
      var i :| 0 <= i < |supers| && supers[i] == x;
      assert chain[|mixed| + i] == x && chain[|mixed|] == start && start in supers;
    } else {
      forall i, j | 0 <= i < |chain| && 0 <= j < |chain| && i != j
                    && OnMixinPath(h, start, chain[i]) && Reaches(h, start, chain[j])
        ensures i < j
      {
        InPart(mixed, supers, i);
        InPart(mixed, supers, j);
      }
    }
  }

  /** A class with the same class as its superclass and its mixin. */
  const Both := Hierarchy(map["C" := ["B"]], map["C" := ["B"]])

  /** Reached through a mixin, the class still comes last: its superclass place decides. */
  lemma {:induction false} MixinPathComesLast()
    ensures Linearise(Both, "C") == Chain(["C", "B"])
    ensures !MixinPathsFirst(Both, "C", ["C", "B"])
  {
    BothIsNoCycle();
    BothFirstPass();
    BothSecondPass();
    BothWays();
    ReachesItself(Both, "C");
    var chain := ["C", "B"];
    assert chain[1] == "B" && chain[0] == "C";
  }

  lemma {:induction false} BothIsNoCycle()
    ensures !HasSuperCycle(Both, "C")
  {
    assert Listed(Both.supers, "C") == ["B"] && Listed(Both.supers, "B") == [];
    var path := {} + {"C"};
    assert SeekCycleAll(Both, [], "C", path + {"B"}, {}, 2) == Search(false, {});
    assert SeekCycle(Both, "B", "C", path, {}, 1) == Search(false, {} + {"B"});
    assert ["B"][1..] == [];
    assert SeekCycleAll(Both, ["B"], "C", path, {}, 1) == Search(false, {} + {"B"});
  }

  lemma {:induction false} Alone(building: bool, viaMixin: bool, visiting: set<Name>, w: Walk)
    requires w.budget > 0 && "B" !in visiting
    ensures Dfs(Both, "B", building, viaMixin, visiting, 1, w) ==
      w.(budget := w.budget - 1, chain := if building == viaMixin then MoveToEnd(w.chain, "B") else w.chain)
    ensures DfsAll(Both, ["B"], building, viaMixin, visiting, 1, w) ==
              Dfs(Both, "B", building, viaMixin, visiting, 1, w)
  {
    assert Listed(Both.supers, "B") == [] && Listed(Both.mixins, "B") == [];
    assert ["B"][1..] == [];
  }

  lemma {:induction false} BothFirstPass()
    ensures FirstPass(Both, "C") == Walk(["B"], MaxVisits - 3, false)
  {
    var w0, inside := Walk([], MaxVisits - 1, false), {} + {"C"};
    assert Listed(Both.supers, "C") == ["B"] && Listed(Both.mixins, "C") == ["B"];
    Alone(true, true, inside, w0);
    assert MoveToEnd([], "B") == ["B"];
    Alone(true, false, inside, Walk(["B"], MaxVisits - 2, false));
  }

  lemma {:induction false} BothSecondPass()
    ensures Dfs(Both, "C", false, false, {}, 0, Walk(["B"], MaxVisits - 3, false)) ==
              Walk(["C", "B"], MaxVisits - 6, false)
  {
    var w0, inside := Walk(["B"], MaxVisits - 4, false), {} + {"C"};
    assert Listed(Both.supers, "C") == ["B"] && Listed(Both.mixins, "C") == ["B"];
    Alone(false, true, inside, w0);
    assert RemoveFirst([], "C") == [] && ["B"][1..] == [];
    assert RemoveFirst(["B"], "C") == ["B"];
    assert MoveToEnd(["B"], "C") == ["B", "C"];
    Alone(false, false, inside, Walk(["B", "C"], MaxVisits - 5, false));
    assert RemoveFirst(["B", "C"], "B") == ["C"];
    assert MoveToEnd(["B", "C"], "B") == ["C", "B"];
  }

  lemma {:induction false} BothWays()
    ensures OnMixinPath(Both, "C", "B") && Reaches(Both, "C", "B")
  {
    var path := ["C", "B"];
    assert "B" in Listed(Both.mixins, "C") && path[1..] == ["B"];
    assert Walks(Both, ["B"], true, true);
    assert Leads(path, "C", "B") && Straight(path, {}) && Walks(Both, path, false, true);
    assert IsSuperPath(Both, path);
    SuperPathReaches(Both, path);
  }

  // Superclasses after their subclasses.

  ghost predicate After(xs: seq<Name>, i: nat, p: Name)
  {
    i < |xs| && p in xs[i + 1..]
  }

  /** Every superclass of a listed class is listed after it. */
  ghost predicate SupersFollow(h: Hierarchy, xs: seq<Name>)
  {
    forall i: nat, p: Name :: i < |xs| && IsSuper(h, p, xs[i]) ==> After(xs, i, p)
  }

  /** As `SupersFollow`, but the superclasses of `owner` may still be missing unless they are in `seen`. */
  ghost predicate FollowButFor(h: Hierarchy, xs: seq<Name>, owner: Name, seen: seq<Name>)
  {
    forall i: nat, p: Name :: i < |xs| && IsSuper(h, p, xs[i]) && (xs[i] != owner || p in seen) ==> After(xs, i, p)
  }

  /** Taking elements out keeps what stands after an element after it. */
  lemma {:induction false} OrderKept(xs: seq<Name>, ys: seq<Name>, i: nat) returns (j: nat)
    requires i < |Without(xs, ys)|
    ensures j < |xs| && xs[j] == Without(xs, ys)[i] && xs[j] !in ys
    ensures forall p :: p in xs[j + 1..] && p !in ys ==> p in Without(xs, ys)[i + 1..]
  {
    var kept := Without(xs[1..], ys);
    if xs[0] in ys {
      assert Without(xs, ys) == kept;
      var k := OrderKept(xs[1..], ys, i);
      j := k + 1;
      assert xs[1..][k + 1..] == xs[j + 1..];
    } else if i == 0 {
      j := 0;
      WithoutIs(xs[1..], ys);
      assert Without(xs, ys)[1..] == kept;
    } else {
      var k := OrderKept(xs[1..], ys, i - 1);
      j := k + 1;
      assert xs[1..][k + 1..] == xs[j + 1..];
      assert Without(xs, ys)[i + 1..] == kept[i..];
    }
  }

  /** Placing a superclass's chain late keeps every class before its superclasses. */
  lemma {:induction false} PlacedLate(
    h: Hierarchy, acc: seq<Name>, owner: Name, seen: seq<Name>, parent: Name, chain: seq<Name>)
    requires FollowButFor(h, acc, owner, seen)
    requires SupersFollow(h, chain) && parent in chain
    ensures FollowButFor(h, Replace(acc, chain), owner, seen + [parent])
  {
    var r := Replace(acc, chain);
    forall i: nat, p: Name | i < |r| && IsSuper(h, p, r[i]) && (r[i] != owner || p in seen + [parent])
      ensures After(r, i, p)
    {
      StillFollows(h, acc, owner, seen, parent, chain, i, p);
    }
  }

  lemma {:induction false} StillFollows(h: Hierarchy, acc: seq<Name>, owner: Name, seen: seq<Name>, parent: Name,
                                        chain: seq<Name>, i: nat, p: Name)
    requires FollowButFor(h, acc, owner, seen) && SupersFollow(h, chain) && parent in chain
    requires i < |Replace(acc, chain)| && IsSuper(h, p, Replace(acc, chain)[i])
    requires Replace(acc, chain)[i] == owner ==> p in seen + [parent]
    ensures After(Replace(acc, chain), i, p)
  {
    var kept, r := Without(acc, chain), Replace(acc, chain);
    if i >= |kept| {
      assert r[i] == chain[i - |kept|];
      assert r[i + 1..] == chain[i - |kept| + 1..];
      assert After(chain, i - |kept|, p);
    } else {
      assert r[i] == kept[i];
      assert r[i + 1..] == kept[i + 1..] + chain;
      if p !in chain {
        var j := OrderKept(acc, chain, i);
        assert IsSuper(h, p, acc[j]);
        assert After(acc, j, p);
      }
    }
  }

  /** No class at or above the given one is its own indirect superclass. */
  ghost predicate AcyclicAbove(h: Hierarchy, cls: Name)
  {
    forall x: Name :: Reaches(h, cls, x) ==> !OnCycle(h, x)
  }

  lemma {:induction false} AcyclicFurther(h: Hierarchy, cls: Name, p: Name)
    requires AcyclicAbove(h, cls) && IsSuper(h, p, cls)
    ensures AcyclicAbove(h, p) && !Reaches(h, p, cls)
  {
    forall x: Name | Reaches(h, p, x)
      ensures !OnCycle(h, x)
    {
      ReachesThrough(h, cls, p, x);
    }
    if Reaches(h, p, cls) {
      var n: nat :| ReachesIn(h, p, cls, n);
      assert ReachesIn(h, cls, cls, n + 1);
      ReachesItself(h, cls);
    }
  }

  /** No class on the path is at or above the given one. */
  ghost predicate PathBelow(h: Hierarchy, cls: Name, visiting: set<Name>)
  {
    forall v :: v in visiting ==> !Reaches(h, cls, v)
  }

  /** The second pass puts every class it collects before all of the class's superclasses. */
  lemma {:induction false} CollectsInOrder(h: Hierarchy, cls: Name, visiting: set<Name>, depth: nat, w: Walk)
    requires w.chain == [] && AcyclicAbove(h, cls) && PathBelow(h, cls, visiting)
    requires !Dfs(h, cls, false, false, visiting, depth, w).aborted
    ensures var r := Dfs(h, cls, false, false, visiting, depth, w).chain; SupersFollow(h, r) && cls in r
    decreases Left(depth), 0, 0
  {
    ReachesItself(h, cls);
    var w0, inside, supers := w.(budget := w.budget - 1), visiting + {cls}, Listed(h.supers, cls);
    var w1 := DfsAll(h, Listed(h.mixins, cls), false, true, inside, depth + 1, w0);
    MixinsLeaveChainAll(h, Listed(h.mixins, cls), inside, depth + 1, w0);
    assert MoveToEnd([], cls) == [cls];
    var w2 := w1.(chain := [cls]);
    forall p | p in supers
      ensures AcyclicAbove(h, p) && PathBelow(h, p, inside)
    {
      AcyclicFurther(h, cls, p);
      BelowFurther(h, cls, p, visiting);
    }
    assert [] + supers == supers;
    hide AcyclicAbove, PathBelow, Reaches;
    CollectsInOrderAll(h, cls, [], supers, inside, depth + 1, w2);
    StaysInAll(h, supers, false, false, inside, depth + 1, w2, cls);
    AllFollow(h, DfsAll(h, supers, false, false, inside, depth + 1, w2).chain, cls);
  }

  lemma {:induction false} BelowFurther(h: Hierarchy, cls: Name, p: Name, visiting: set<Name>)
    requires PathBelow(h, cls, visiting) && IsSuper(h, p, cls) && !Reaches(h, p, cls)
    ensures PathBelow(h, p, visiting + {cls})
  {
    forall v | v in visiting
      ensures !Reaches(h, p, v)
    {
      if Reaches(h, p, v) {
        ReachesThrough(h, cls, p, v);
      }
    }
  }

  lemma {:induction false} AllFollow(h: Hierarchy, xs: seq<Name>, owner: Name)
    requires FollowButFor(h, xs, owner, Listed(h.supers, owner))
    ensures SupersFollow(h, xs)
  {
    assert forall p: Name :: IsSuper(h, p, owner) ==> p in Listed(h.supers, owner);
    hide After;
  }

  lemma {:induction false} CollectsInOrderAll(
    h: Hierarchy, owner: Name, seen: seq<Name>, parents: seq<Name>, visiting: set<Name>, depth: nat, w: Walk)
    requires Distinct(w.chain) && FollowButFor(h, w.chain, owner, seen)
    requires forall p :: p in parents ==> AcyclicAbove(h, p) && PathBelow(h, p, visiting)
    requires !DfsAll(h, parents, false, false, visiting, depth, w).aborted
    ensures FollowButFor(h, DfsAll(h, parents, false, false, visiting, depth, w).chain, owner, seen + parents)
    decreases Left(depth), 1, |parents|
  {
    hide FollowButFor, SupersFollow, AcyclicAbove, PathBelow, Distinct;
    if parents == [] {
      assert seen + parents == seen;
    } else {
      var p := parents[0];
      assert p in parents;
      var next := Dfs(h, p, false, false, visiting, depth, w);
      var apart := Dfs(h, p, false, false, visiting, depth, w.(chain := []));
      AbortSticksAll(h, parents[1..], false, false, visiting, depth, next);
      WorksApart(h, p, false, false, visiting, depth, w);
      CollectsInOrder(h, p, visiting, depth, w.(chain := []));
      PlacedLate(h, w.chain, owner, seen, p, apart.chain);
      StaysDistinct(h, p, false, false, visiting, depth, w);
      assert (seen + [p]) + parents[1..] == seen + parents;
      assert forall q :: q in parents[1..] ==> q in parents;
      CollectsInOrderAll(h, owner, seen + [p], parents[1..], visiting, depth, next);
    }
  }

  lemma {:induction false} FollowedGoesOn(h: Hierarchy, xs: seq<Name>, i: nat, b: Name, n: nat)
    requires SupersFollow(h, xs) && i < |xs| && n > 0 && ReachesIn(h, xs[i], b, n)
    ensures b in xs[i + 1..]
    decreases n
  {
    var p: Name :| IsSuper(h, p, xs[i]) && ReachesIn(h, p, b, n - 1);
    assert After(xs, i, p);
    if n == 1 {
      assert p == b;
    } else {
      var k :| 0 <= k < |xs[i + 1..]| && xs[i + 1..][k] == p;
      FollowedGoesOn(h, xs, i + 1 + k, b, n - 1);
      assert xs[i + 1..][k + 1..] == xs[i + 1 + k + 1..];
    }
  }

  lemma {:induction false} FollowedIsAcyclic(h: Hierarchy, xs: seq<Name>, i: nat)
    requires SupersFollow(h, xs) && Distinct(xs) && i < |xs|
    ensures !OnCycle(h, xs[i])
  {
    if OnCycle(h, xs[i]) {
      var n: nat :| n > 0 && ReachesIn(h, xs[i], xs[i], n);
      FollowedGoesOn(h, xs, i, xs[i], n);
    }
  }

  lemma {:induction false} SuperPartIsDistinct(h: Hierarchy, start: Name)
    requires Linearise(h, start).Chain?
    ensures Distinct(SuperPart(h, start))
  {
    ChainHasTwoParts(h, start);
    var supers, mixed := SuperPart(h, start), MixinPart(h, start);
    hide SuperPart, MixinPart, Linearise;
    assert forall i :: 0 <= i < |supers| ==> supers[i] == (mixed + supers)[|mixed| + i];
  }

  /** The superclass part puts every class before all of its superclasses exactly when no superclass lies on a
      cycle, whatever the rest of the hierarchy looks like. */
  lemma {:induction false} SupersFollowExactlyWhen(h: Hierarchy, start: Name)
    requires Linearise(h, start).Chain?
    ensures SupersFollow(h, SuperPart(h, start)) <==> AcyclicAbove(h, start)
  {
    if AcyclicAbove(h, start) {
      SecondPassFinishes(h, start);
      CollectsInOrder(h, start, {}, 0, FirstPass(h, start).(chain := []));
    }
    if SupersFollow(h, SuperPart(h, start)) {
      FollowingIsAcyclic(h, start);
    }
  }

  lemma {:induction false} FollowingIsAcyclic(h: Hierarchy, start: Name)
    requires Linearise(h, start).Chain? && SupersFollow(h, SuperPart(h, start))
    ensures AcyclicAbove(h, start)
  {
    ChainHasTwoParts(h, start);
    SuperPartIsDistinct(h, start);
    var supers := SuperPart(h, start);
    hide SuperPart, MixinPart, SupersFollow, OnCycle, Linearise, OnMixinPath, Distinct;
    forall x: Name | Reaches(h, start, x)
      ensures !OnCycle(h, x)
    {
      var i :| 0 <= i < |supers| && supers[i] == x;
      FollowedIsAcyclic(h, supers, i);
    }
  }

  lemma {:induction false} SecondPassFinishes(h: Hierarchy, start: Name)
    requires Linearise(h, start).Chain?
    ensures !Dfs(h, start, false, false, {}, 0, FirstPass(h, start).(chain := [])).aborted
  {
    StaysDistinct(h, start, true, false, {}, 0, Walk([], MaxVisits, false));
    WorksApart(h, start, false, false, {}, 0, FirstPass(h, start));
  }

  // The superclass part, defined without the walk.

  /** The ranks fall from each ranked class to its superclasses, which are ranked too. */
  ghost predicate Ranked(h: Hierarchy, rank: map<Name, nat>)
  {
    forall c: Name, p: Name :: c in rank && IsSuper(h, p, c) ==> p in rank && rank[p] < rank[c]
  }

  ghost predicate AllBelow(rank: map<Name, nat>, classes: seq<Name>, bound: nat)
  {
    forall p :: p in classes ==> p in rank && rank[p] < bound
  }

  /** A class, and then each superclass's linearisation placed as late as possible. */
  ghost function Lin(h: Hierarchy, rank: map<Name, nat>, cls: Name): (r: seq<Name>)
    requires Ranked(h, rank) && cls in rank
    decreases rank[cls], 0
  {
    assert forall p: Name :: p in Listed(h.supers, cls) ==> IsSuper(h, p, cls);
    LinMerge(h, rank, Listed(h.supers, cls), [cls], rank[cls])
  }

  ghost function LinMerge(h: Hierarchy, rank: map<Name, nat>, parents: seq<Name>, acc: seq<Name>, bound: nat)
    : (r: seq<Name>)
    requires Ranked(h, rank) && AllBelow(rank, parents, bound)
    decreases bound, 0, |parents|
  {
    if parents == [] then acc
    else
      assert parents[0] in parents;
      LinMerge(h, rank, parents[1..], Replace(acc, Lin(h, rank, parents[0])), bound)
  }

  ghost predicate LinOk(h: Hierarchy, cls: Name, xs: seq<Name>)
  {
    && Distinct(xs) && SupersFollow(h, xs)
    && xs != [] && xs[0] == cls
    && (forall x :: x in xs ==> Reaches(h, cls, x))
  }

  ghost predicate MergingOk(h: Hierarchy, owner: Name, seen: seq<Name>, acc: seq<Name>)
  {
    && Distinct(acc) && FollowButFor(h, acc, owner, seen)
    && acc != [] && acc[0] == owner
    && (forall x :: x in acc ==> Reaches(h, owner, x))
  }

  lemma {:induction false} MergeOne(
    h: Hierarchy, rank: map<Name, nat>, owner: Name, seen: seq<Name>, acc: seq<Name>, parent: Name, chain: seq<Name>)
    requires Ranked(h, rank) && owner in rank && IsSuper(h, parent, owner)
    requires MergingOk(h, owner, seen, acc) && LinOk(h, parent, chain)
    ensures MergingOk(h, owner, seen + [parent], Replace(acc, chain))
  {
    PlacedLate(h, acc, owner, seen, parent, chain);
    ReplaceIs(acc, chain);
    hide Ranked, FollowButFor, SupersFollow, Distinct;
    forall x | x in chain
      ensures Reaches(h, owner, x) && x != owner
    {
      ReachesThrough(h, owner, parent, x);
      NotAboveItself(h, rank, owner, parent, x);
    }
    assert Without(acc, chain)[0] == owner;
  }

  lemma {:induction false} NotAboveItself(h: Hierarchy, rank: map<Name, nat>, owner: Name, parent: Name, x: Name)
    requires Ranked(h, rank) && owner in rank && IsSuper(h, parent, owner) && Reaches(h, parent, x)
    ensures x != owner
  {
    var n: nat :| ReachesIn(h, parent, x, n);
    assert ReachesIn(h, owner, x, n + 1);
    RankFalls(h, rank, owner, x, n + 1);
  }

  lemma {:induction false} MergeIsOk(
    h: Hierarchy, rank: map<Name, nat>, owner: Name, seen: seq<Name>, parents: seq<Name>, acc: seq<Name>)
    requires Ranked(h, rank) && owner in rank && Listed(h.supers, owner) == seen + parents
    requires AllBelow(rank, parents, rank[owner]) && MergingOk(h, owner, seen, acc)
    ensures LinOk(h, owner, LinMerge(h, rank, parents, acc, rank[owner]))
    decreases rank[owner], 0, |parents|
  {
    if parents == [] {
      assert seen + parents == seen;
      AllFollow(h, acc, owner);
    } else {
      var p := parents[0];
      assert p in parents && p in seen + parents && IsSuper(h, p, owner);
      LinIsOk(h, rank, p);
      MergeOne(h, rank, owner, seen, acc, p, Lin(h, rank, p));
      assert (seen + [p]) + parents[1..] == seen + parents;
      hide Ranked, MergingOk, LinOk;
      MergeIsOk(h, rank, owner, seen + [p], parents[1..], Replace(acc, Lin(h, rank, p)));
    }
  }

  /** The linearisation lists each class once, starts with the class itself, and puts every class before
      all of its superclasses. */
  lemma {:induction false} LinIsOk(h: Hierarchy, rank: map<Name, nat>, cls: Name)
    requires Ranked(h, rank) && cls in rank
    ensures LinOk(h, cls, Lin(h, rank, cls))
    decreases rank[cls], 1
  {
    assert [] + Listed(h.supers, cls) == Listed(h.supers, cls);
    assert forall p: Name :: p in Listed(h.supers, cls) ==> IsSuper(h, p, cls);
    ReachesItself(h, cls);
    MergeIsOk(h, rank, cls, [], Listed(h.supers, cls), [cls]);
  }

  /** The linearisation holds exactly the class and its direct and indirect superclasses. */
  lemma {:induction false} LinHoldsAllSuperclasses(h: Hierarchy, rank: map<Name, nat>, cls: Name, x: Name)
    requires Ranked(h, rank) && cls in rank
    ensures x in Lin(h, rank, cls) <==> Reaches(h, cls, x)
  {
    LinIsOk(h, rank, cls);
    if Reaches(h, cls, x) {
      var n: nat :| ReachesIn(h, cls, x, n);
      if n > 0 {
        FollowedGoesOn(h, Lin(h, rank, cls), 0, x, n);
      }
    }
  }

  /** The second pass puts the class's linearisation at the end of the chain. */
  lemma {:induction false} SecondPass(
    h: Hierarchy, rank: map<Name, nat>, cls: Name, visiting: set<Name>, depth: nat, w: Walk)
    requires Ranked(h, rank) && cls in rank && Distinct(w.chain)
    requires forall v :: v in visiting ==> v in rank && rank[v] > rank[cls]
    requires !Dfs(h, cls, false, false, visiting, depth, w).aborted
    ensures Dfs(h, cls, false, false, visiting, depth, w).chain == Replace(w.chain, Lin(h, rank, cls))
    decreases Left(depth), 0, 0
  {
    var inside, w0 := visiting + {cls}, w.(budget := w.budget - 1);
    var w1 := DfsAll(h, Listed(h.mixins, cls), false, true, inside, depth + 1, w0);
    MixinsLeaveChainAll(h, Listed(h.mixins, cls), inside, depth + 1, w0);
    var w2 := w1.(chain := MoveToEnd(w1.chain, cls));
    MovedIsDistinct(w.chain, cls);
    assert forall p: Name :: p in Listed(h.supers, cls) ==> IsSuper(h, p, cls);
    SecondPassAll(h, rank, rank[cls], Listed(h.supers, cls), [cls], w.chain, inside, depth + 1, w2);
  }

  lemma {:induction false} SecondPassAll(
    h: Hierarchy, rank: map<Name, nat>, bound: nat, parents: seq<Name>, acc: seq<Name>, before: seq<Name>,
    visiting: set<Name>, depth: nat, w: Walk)
    requires Ranked(h, rank) && AllBelow(rank, parents, bound) && Distinct(w.chain)
    requires forall v :: v in visiting ==> v in rank && rank[v] >= bound
    requires w.chain == Replace(before, acc)
    requires !DfsAll(h, parents, false, false, visiting, depth, w).aborted
    ensures DfsAll(h, parents, false, false, visiting, depth, w).chain ==
              Replace(before, LinMerge(h, rank, parents, acc, bound))
    decreases Left(depth), 1, |parents|
  {
    hide Ranked, Distinct, Replace;
    if parents == [] {
      // Nothing is left to place.
    } else {
      var p := parents[0];
      assert p in parents;
      var w1 := Dfs(h, p, false, false, visiting, depth, w);
      AbortSticksAll(h, parents[1..], false, false, visiting, depth, w1);
      SecondPass(h, rank, p, visiting, depth, w);
      StaysDistinct(h, p, false, false, visiting, depth, w);
      ReplaceTwice(before, acc, Lin(h, rank, p));
      SecondPassAll(h, rank, bound, parents[1..], Replace(acc, Lin(h, rank, p)), before, visiting, depth, w1);
    }
  }

  /** With ranks for the classes above the start, its superclass part is the linearisation. */
  lemma {:induction false} SuperPartIsLin(h: Hierarchy, rank: map<Name, nat>, start: Name)
    requires Linearise(h, start).Chain? && Ranked(h, rank) && start in rank
    ensures SuperPart(h, start) == Lin(h, rank, start)
  {
    SecondPassFinishes(h, start);
    SecondPass(h, rank, start, {}, 0, FirstPass(h, start).(chain := []));
    ReplaceNothing(Lin(h, rank, start));
  }

  /** The place of an element. */
  ghost function Place(xs: seq<Name>, x: Name): (i: nat)
    requires x in xs
    ensures i < |xs| && xs[i] == x
  {
    var i: nat :| i < |xs| && xs[i] == x;
    i
  }

  /** Ranks exist exactly when no class above the start lies on a cycle. */
  lemma {:induction false} RanksExactlyWhen(h: Hierarchy, start: Name)
    requires Linearise(h, start).Chain?
    ensures (exists rank :: Ranked(h, rank) && start in rank) <==> AcyclicAbove(h, start)
  {
    if AcyclicAbove(h, start) {
      SupersFollowExactlyWhen(h, start);
      ChainHasTwoParts(h, start);
      ReachesItself(h, start);
      SuperPartIsDistinct(h, start);
      var supers := SuperPart(h, start);
      hide SuperPart, MixinPart, Linearise, SupersFollow, Distinct, OnMixinPath;
      var rank := RankByPlace(h, supers);
    }
    if rank :| Ranked(h, rank) && start in rank {
      forall x: Name | Reaches(h, start, x)
        ensures !OnCycle(h, x)
      {
        var n: nat :| ReachesIn(h, start, x, n);
        RankFalls(h, rank, start, x, n);
        if OnCycle(h, x) {
          var m: nat :| m > 0 && ReachesIn(h, x, x, m);
          RankFalls(h, rank, x, x, m);
        }
      }
    }
  }

  lemma {:induction false} RankByPlace(h: Hierarchy, xs: seq<Name>) returns (rank: map<Name, nat>)
    requires SupersFollow(h, xs) && Distinct(xs)
    ensures Ranked(h, rank) && rank.Keys == set x | x in xs
  {
    rank := map x | x in xs :: |xs| - Place(xs, x);
    forall c: Name, p: Name | c in rank && IsSuper(h, p, c)
      ensures p in rank && rank[p] < rank[c]
    {
      var i := Place(xs, c);
      assert After(xs, i, p);
      var k :| 0 <= k < |xs[i + 1..]| && xs[i + 1..][k] == p;
      assert xs[i + 1 + k] == p;
    }
  }

  lemma {:induction false} RankFalls(h: Hierarchy, rank: map<Name, nat>, a: Name, b: Name, n: nat)
    requires Ranked(h, rank) && a in rank && ReachesIn(h, a, b, n)
    ensures b in rank && rank[b] + n <= rank[a]
    decreases n
  {
    if n == 0 {
      // The class itself.
    } else {
      var p: Name :| IsSuper(h, p, a) && ReachesIn(h, p, b, n - 1);
      RankFalls(h, rank, p, b, n - 1);
    }
  }

  /** Over superclasses without a cycle, a computed chain ends with the linearisation: each class once, the start
      first, every class before its superclasses, and nothing of it standing earlier. */
  lemma {:induction false} ChainIsSound(h: Hierarchy, rank: map<Name, nat>, start: Name)
    requires Linearise(h, start).Chain? && Ranked(h, rank) && start in rank
    ensures var lin := Lin(h, rank, start);
      && Linearise(h, start).classes == MixinPart(h, start) + lin && Distinct(MixinPart(h, start) + lin)
      && lin != [] && lin[0] == start && SupersFollow(h, lin)
      && (forall x :: x in lin <==> Reaches(h, start, x))
  {
    ChainHasTwoParts(h, start);
    SuperPartIsLin(h, rank, start);
    RanksExactlyWhen(h, start);
    SupersFollowExactlyWhen(h, start);
  }
}
