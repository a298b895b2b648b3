/** The iRule event skeleton: unique, ordered `when` blocks. */
module IruleSkeleton {
  import opened Sequences

  const RuleInit := "RULE_INIT"
  const ClientAccepted := "CLIENT_ACCEPTED"

  predicate IsHttp(name: string)
  {
    name == "HTTP_REQUEST" || name == "HTTP_RESPONSE" || name == "HTTP_REQUEST_DATA" || name == "HTTP_RESPONSE_DATA"
  }

  predicate AnyHttp(names: seq<string>)
  {
    exists i :: 0 <= i < |names| && IsHttp(names[i])
  }

  /** How the catalogue and the locale order two names. */
  datatype Order = Order(catalogue: seq<string>, collate: (string, string) -> int)

  /** The position of a name in the catalogue; the last one wins. */
  function IndexIn(catalogue: seq<string>, name: string): (i: int)
    ensures -1 <= i < |catalogue|
    ensures i >= 0 ==> catalogue[i] == name
  {
    if catalogue == [] then -1
    else if catalogue[|catalogue| - 1] == name then |catalogue| - 1
    else IndexIn(catalogue[..|catalogue| - 1], name)
  }

  /** The sort's comparator: catalogued names by position and first, the others by locale. */
  function Compare(o: Order, l: string, r: string): (c: int)
  {
    var i, j := IndexIn(o.catalogue, l), IndexIn(o.catalogue, r);
    if i >= 0 && j >= 0 then i - j
    else if i >= 0 then -1
    else if j >= 0 then 1
    else o.collate(l, r)
  }

  /** What a locale comparison must be: a total preorder. */
  ghost predicate Collation(collate: (string, string) -> int)
  {
    && (forall a, b :: (collate(a, b) <= 0 <==> collate(b, a) >= 0) && (collate(a, b) == 0 <==> collate(b, a) == 0))
    && (forall a, b, c :: collate(a, b) <= 0 && collate(b, c) <= 0 ==> collate(a, c) <= 0)
    && (forall a, b, c :: collate(a, b) <= 0 && collate(b, c) <= 0 && collate(a, c) == 0 ==> collate(a, b) == 0)
  }

  /** No two different names of these compare equal. */
  ghost predicate Tells(o: Order, names: seq<string>)
  {
    forall i, j :: 0 <= i < |names| && 0 <= j < |names| && Compare(o, names[i], names[j]) == 0 ==> names[i] == names[j]
  }

  lemma {:induction false} CompareIsPreorder(o: Order, a: string, b: string, c: string)
    requires Collation(o.collate)
    ensures Compare(o, a, b) <= 0 || Compare(o, b, a) <= 0
    ensures Compare(o, a, b) <= 0 && Compare(o, b, a) <= 0 ==> Compare(o, a, b) == 0
    ensures Compare(o, a, b) == 0 <==> Compare(o, b, a) == 0
    ensures Compare(o, a, b) <= 0 && Compare(o, b, c) <= 0 ==> Compare(o, a, c) <= 0
  {
  }

  // Sorting.

  function Insert(o: Order, x: string, xs: seq<string>): (r: seq<string>)
  {
    if xs == [] || Compare(o, x, xs[0]) <= 0 then [x] + xs else [xs[0]] + Insert(o, x, xs[1..])
  }

  function SortEvents(o: Order, xs: seq<string>): (r: seq<string>)
  {
    if xs == [] then [] else Insert(o, xs[0], SortEvents(o, xs[1..]))
  }

  ghost predicate Sorted(o: Order, xs: seq<string>)
  {
    forall i, j :: 0 <= i < j < |xs| ==> Compare(o, xs[i], xs[j]) <= 0
  }

  lemma {:induction false} InsertSorts(o: Order, x: string, xs: seq<string>)
    requires Collation(o.collate) && Sorted(o, xs)
    ensures Sorted(o, Insert(o, x, xs)) && forall y :: y in Insert(o, x, xs) <==> y == x || y in xs
    ensures Distinct(xs) && x !in xs ==> Distinct(Insert(o, x, xs))
  {
    var r := Insert(o, x, xs);
    if xs == [] {
    } else if Compare(o, x, xs[0]) <= 0 {
      forall j | 0 < j < |r|
        ensures Compare(o, r[0], r[j]) <= 0
      {
        if j > 1 {
          CompareIsPreorder(o, x, xs[0], xs[j - 1]);
        }
      }
    } else {
      var rest := xs[1..];
      assert Sorted(o, rest) && (Distinct(xs) ==> Distinct(rest));
      InsertSorts(o, x, rest);
      CompareIsPreorder(o, x, xs[0], x);
      ConsKeeps(o, xs[0], Insert(o, x, rest), x, rest);
      assert forall y :: y in xs <==> y == xs[0] || y in rest;
      assert Distinct(xs) ==> xs[0] !in rest;
    }
  }

  lemma {:induction false} ConsKeeps(o: Order, head: string, tail: seq<string>, x: string, rest: seq<string>)
    requires Sorted(o, tail) && (forall y :: y in tail <==> y == x || y in rest)
    requires Compare(o, head, x) <= 0 && forall k :: 0 <= k < |rest| ==> Compare(o, head, rest[k]) <= 0
    ensures Sorted(o, [head] + tail)
    ensures Distinct(tail) && head !in tail ==> Distinct([head] + tail)
  {
    forall j | 0 <= j < |tail|
      ensures Compare(o, head, tail[j]) <= 0
    {
      assert tail[j] in tail;
    }
  }

  lemma {:induction false} SortSorts(o: Order, xs: seq<string>)
    requires Collation(o.collate)
    ensures Sorted(o, SortEvents(o, xs)) && forall y :: y in SortEvents(o, xs) <==> y in xs
    ensures Distinct(xs) ==> Distinct(SortEvents(o, xs))
  {
    if xs == [] {
    } else {
      SortSorts(o, xs[1..]);
      InsertSorts(o, xs[0], SortEvents(o, xs[1..]));
      assert Distinct(xs) ==> Distinct(xs[1..]) && xs[0] !in xs[1..];
    }
  }

  /** Two sorted lists without repetition that hold the same tellable names are the same list. */
  lemma {:induction false} SortedIsUnique(o: Order, xs: seq<string>, ys: seq<string>)
    requires Sorted(o, xs) && Sorted(o, ys) && Distinct(xs) && Distinct(ys)
    requires Collation(o.collate) && Tells(o, xs) && SameNames(xs, ys)
    ensures xs == ys
    decreases |xs|
  {
    SameEmpty(xs, ys);
    if xs == [] {
    } else {
      SameHead(o, xs, ys);
      Tail(o, xs);
      Tail(o, ys);
      TailsAgree(xs, ys);
      hide Sorted, Distinct, Collation, Tells, SameNames;
      SortedIsUnique(o, xs[1..], ys[1..]);
      HeadTail(xs);
      HeadTail(ys);
    }
  }

  ghost predicate SameNames(xs: seq<string>, ys: seq<string>)
  {
    forall y :: y in xs <==> y in ys
  }

  lemma {:induction false} SameEmpty(xs: seq<string>, ys: seq<string>)
    requires SameNames(xs, ys)
    ensures xs == [] <==> ys == []
  {
    assert xs != [] ==> xs[0] in ys;
    assert ys != [] ==> ys[0] in xs;
  }

  lemma {:induction false} Tail(o: Order, xs: seq<string>)
    requires xs != []
    ensures Sorted(o, xs) ==> Sorted(o, xs[1..])
    ensures Tells(o, xs) ==> Tells(o, xs[1..])
    ensures Distinct(xs) ==> Distinct(xs[1..]) && xs[0] !in xs[1..]
  {
    hide Compare;
  }

  lemma {:induction false} TailsAgree(xs: seq<string>, ys: seq<string>)
    requires xs != [] && ys != [] && xs[0] == ys[0] && Distinct(xs) && Distinct(ys) && SameNames(xs, ys)
    ensures SameNames(xs[1..], ys[1..])
  {
    assert forall y :: y in xs[1..] <==> y in xs && y != xs[0];
    assert forall y :: y in ys[1..] <==> y in ys && y != ys[0];
  }

  lemma {:induction false} SameHead(o: Order, xs: seq<string>, ys: seq<string>)
    requires Sorted(o, xs) && Sorted(o, ys) && Collation(o.collate) && Tells(o, xs)
    requires xs != [] && SameNames(xs, ys)
    ensures ys != [] && xs[0] == ys[0]
  {
    assert xs[0] in xs && xs[0] in ys;
    assert ys[0] in ys && ys[0] in xs;
    var i :| 0 <= i < |xs| && xs[i] == ys[0];
    var j :| 0 <= j < |ys| && ys[j] == xs[0];
    CompareIsPreorder(o, xs[0], xs[0], xs[0]);
    assert Compare(o, xs[0], xs[i]) <= 0;
    CompareIsPreorder(o, ys[0], ys[0], ys[0]);
    assert Compare(o, ys[0], ys[j]) <= 0;
    CompareIsPreorder(o, xs[0], ys[0], xs[0]);
  }

  // Selection.

  /** The normalised names, each where it first occurs; empty ones are dropped. */
  function UniqueNames(events: seq<string>, normalise: string -> string): (r: seq<string>)
  {
    if events == [] then []
    else
      var before, name := UniqueNames(events[..|events| - 1], normalise), normalise(events[|events| - 1]);
      if name == "" || name in before then before else before + [name]
  }

  ghost predicate Chosen(events: seq<string>, normalise: string -> string, name: string)
  {
    name != "" && exists i :: 0 <= i < |events| && normalise(events[i]) == name
  }

  ghost predicate HttpIsChosen(events: seq<string>, normalise: string -> string)
  {
    exists h :: IsHttp(h) && Chosen(events, normalise, h)
  }

  lemma {:induction false} UniqueNamesAre(events: seq<string>, normalise: string -> string)
    ensures Distinct(UniqueNames(events, normalise))
    ensures forall name :: name in UniqueNames(events, normalise) <==> Chosen(events, normalise, name)
  {
    if events == [] {
    } else {
      var init, last := events[..|events| - 1], normalise(events[|events| - 1]);
      UniqueNamesAre(init, normalise);
      forall name
        ensures Chosen(events, normalise, name) <==> Chosen(init, normalise, name) || (name != "" && name == last)
      {
        if Chosen(events, normalise, name) {
          var i :| 0 <= i < |events| && normalise(events[i]) == name;
          assert i < |init| ==> init[i] == events[i];
        }
        if Chosen(init, normalise, name) {
          var i :| 0 <= i < |init| && normalise(init[i]) == name;
          assert events[i] == init[i];
        }
      }
    }
  }

  method CollectUnique(events: seq<string>, normalise: string -> string) returns (unique: seq<string>)
    ensures unique == UniqueNames(events, normalise)
  {
    var seen: set<string>, i := {}, 0;
    unique := [];
    while i < |events|
      invariant 0 <= i <= |events|
      invariant unique == UniqueNames(events[..i], normalise)
      invariant forall name :: name in seen <==> name in unique
    {
      assert events[..i + 1][..i] == events[..i];
      var name := normalise(events[i]);
      if name != "" && name !in seen {
        seen := seen + {name};
        unique := unique + [name];
      }
      i := i + 1;
    }
    assert events[..|events|] == events;
  }

  /** `uniqueEvents`. */
  function Selected(o: Order, events: seq<string>, normalise: string -> string): (r: seq<string>)
  {
    SortEvents(o, UniqueNames(events, normalise))
  }

  function Others(xs: seq<string>, x: string): (r: seq<string>)
  {
    if xs == [] then [] else (if xs[0] == x then [] else [xs[0]]) + Others(xs[1..], x)
  }

  lemma {:induction false} OthersHold(xs: seq<string>, x: string)
    ensures forall y :: y in Others(xs, x) <==> y in xs && y != x
    ensures x !in xs ==> Others(xs, x) == xs
  {
    if xs == [] {
    } else {
      OthersHold(xs[1..], x);
      HeadTail(xs);
    }
  }

  lemma {:induction false} OthersKeepOrder(o: Order, xs: seq<string>, x: string)
    requires Sorted(o, xs) && Distinct(xs)
    ensures Sorted(o, Others(xs, x)) && Distinct(Others(xs, x))
  {
    hide Compare;
    if xs == [] {
    } else {
      Tail(o, xs);
      OthersKeepOrder(o, xs[1..], x);
      OthersHold(xs[1..], x);
      ConsOrdered(o, xs, Others(xs[1..], x));
    }
  }

  lemma {:induction false} ConsOrdered(o: Order, xs: seq<string>, rest: seq<string>)
    requires xs != [] && Sorted(o, xs) && Distinct(xs) && Sorted(o, rest) && Distinct(rest)
    requires forall y :: y in rest ==> y in xs[1..]
    ensures Sorted(o, [xs[0]] + rest) && Distinct([xs[0]] + rest) && [] + rest == rest
  {
    hide Compare;
    forall j | 0 <= j < |rest|
      ensures Compare(o, xs[0], rest[j]) <= 0 && xs[0] != rest[j]
    {
      assert rest[j] in xs[1..];
    }
  }

  /** The blocks' order: `RULE_INIT` first when chosen, and before the HTTP events a `CLIENT_ACCEPTED`. */
  function Arrange(selected: seq<string>): (r: seq<string>)
  {
    var head := if RuleInit in selected then [RuleInit] else [];
    var added := if ClientAccepted !in selected && AnyHttp(selected) then [ClientAccepted] else [];
    head + added + Others(selected, RuleInit)
  }

  function Blocks(o: Order, events: seq<string>, normalise: string -> string): (r: seq<string>)
  {
    Arrange(Selected(o, events, normalise))
  }

  /** `buildIruleEventSkeleton`'s ordering, step by step. */
  method OrderBlocks(o: Order, events: seq<string>, normalise: string -> string) returns (ordered: seq<string>)
    ensures ordered == Blocks(o, events, normalise)
  {
    var unique := CollectUnique(events, normalise);
    var selected := SortEvents(o, unique);
    ghost var others := Others(selected, RuleInit);
    OthersHold(selected, RuleInit);
    ordered := selected;
    if RuleInit in selected {
      ordered := [RuleInit] + Others(selected, RuleInit);
    }
    if ClientAccepted !in selected && AnyHttp(selected) {
      var insertAt := if RuleInit in ordered then 1 else 0;
      ordered := ordered[..insertAt] + [ClientAccepted] + ordered[insertAt..];
    }
  }

  // The blocks.

  const DebugLine := "    if {$debug} {"

  /** A block that logs under the debug flag and leaves the handling to be written. */
  function Guarded(head: seq<string>, log: string, todo: string): (r: seq<string>)
  {
    head + ["", DebugLine, log, "    }", "", todo, "}"]
  }

  function HttpHead(name: string): (r: seq<string>)
  {
    if name == "HTTP_REQUEST" then
      ["when HTTP_REQUEST {", "    set host [string tolower [HTTP::host]]", "    set path [HTTP::path]",
       "    set uri [HTTP::uri]"]
    else if name == "HTTP_RESPONSE" then ["when HTTP_RESPONSE {", "    set status [HTTP::status]"]
    else if name == "HTTP_REQUEST_DATA" then
      ["when HTTP_REQUEST_DATA {", "    set payload [HTTP::payload]", "    HTTP::release"]
    else ["when HTTP_RESPONSE_DATA {", "    set payload [HTTP::payload]", "    HTTP::release"]
  }

  function HttpLog(name: string): (r: string)
  {
    if name == "HTTP_REQUEST" then "        log local0.debug \"HTTP_REQUEST host=$host path=$path\""
    else if name == "HTTP_RESPONSE" then "        log local0.debug \"HTTP_RESPONSE status=$status\""
    else if name == "HTTP_REQUEST_DATA" then
      "        log local0.debug \"HTTP_REQUEST_DATA bytes=[string length $payload]\""
    else "        log local0.debug \"HTTP_RESPONSE_DATA bytes=[string length $payload]\""
  }

  function HttpTodo(name: string): (r: string)
  {
    if name == "HTTP_REQUEST" then "    # TODO: request handling"
    else if name == "HTTP_RESPONSE" then "    # TODO: response handling"
    else "    # TODO: payload handling"
  }

  /** The block of an HTTP event. */
  function HttpLines(name: string): (r: seq<string>)
  {
    Guarded(HttpHead(name), HttpLog(name), HttpTodo(name))
  }

  /** A block's lines. */
  function Lines(name: string, hasHttp: bool): (r: seq<string>)
  {
    if name == RuleInit then ["when RULE_INIT {", "    # TODO: one-time initialisation", "}"]
    else if name == ClientAccepted && hasHttp then
      ["when CLIENT_ACCEPTED {", "    set debug 0", "    # TODO: CLIENT_ACCEPTED handling", "}"]
    else if IsHttp(name) then HttpLines(name)
    else ["when " + name + " {", "    # TODO: " + name + " handling", "}"]
  }

  predicate ReadsDebug(lines: seq<string>)
  {
    DebugLine in lines
  }

  predicate SetsDebug(lines: seq<string>)
  {
    "    set debug 0" in lines
  }

  lemma {:induction false} OnlyHttpReadsDebug(name: string, hasHttp: bool)
    ensures ReadsDebug(Lines(name, hasHttp)) ==> IsHttp(name)
  {
    hide HttpLines;
    var first, second := "when " + name + " {", "    # TODO: " + name + " handling";
    assert first[0] == 'w' && second[4] == '#';
    assert DebugLine[0] == ' ' && DebugLine[4] == 'i';
  }

  lemma {:induction false} ClientAcceptedSetsDebug()
    ensures SetsDebug(Lines(ClientAccepted, true))
  {
    assert Lines(ClientAccepted, true)[1] == "    set debug 0";
  }

  lemma {:induction false} HttpReadsDebug(name: string, hasHttp: bool)
    requires IsHttp(name)
    ensures ReadsDebug(Lines(name, hasHttp))
  {
    hide HttpHead, HttpLog, HttpTodo, Guarded, ReadsDebug;
    GuardedReadsDebug(HttpHead(name), HttpLog(name), HttpTodo(name));
  }

  lemma {:induction false} GuardedReadsDebug(head: seq<string>, log: string, todo: string)
    ensures ReadsDebug(Guarded(head, log, todo))
  {
    assert Guarded(head, log, todo)[|head| + 1] == DebugLine;
  }

  // The whole skeleton.

  function Join(parts: seq<string>, glue: string): (r: string)
  {
    if parts == [] then "" else if |parts| == 1 then parts[0] else parts[0] + glue + Join(parts[1..], glue)
  }

  /** `buildIruleEventSkeleton`: the blocks, one empty line apart; nothing for an empty selection. */
  function Skeleton(o: Order, events: seq<string>, normalise: string -> string): (r: string)
  {
    var selected, blocks := Selected(o, events, normalise), Blocks(o, events, normalise);
    if selected == [] then ""
    else
      Join(BlockTexts(blocks, AnyHttp(selected)), "\n\n") + "\n"
  }

  /** The lines, each with its line end. */
  function TextOf(lines: seq<string>): (r: string)
  {
    if lines == [] then "" else lines[0] + "\n" + TextOf(lines[1..])
  }

  /** The lines of the blocks, an empty line between two of them. */
  function BlockLines(blocks: seq<string>, hasHttp: bool): (r: seq<string>)
  {
    if blocks == [] then []
    else if |blocks| == 1 then Lines(blocks[0], hasHttp)
    else Lines(blocks[0], hasHttp) + ([""] + BlockLines(blocks[1..], hasHttp))
  }

  function BlockTexts(blocks: seq<string>, hasHttp: bool): (r: seq<string>)
  {
    seq(|blocks|, i requires 0 <= i < |blocks| => Join(Lines(blocks[i], hasHttp), "\n"))
  }

  lemma {:induction false} JoinedLines(lines: seq<string>)
    requires lines != []
    ensures Join(lines, "\n") + "\n" == TextOf(lines)
  {
    if |lines| == 1 {
      assert lines[1..] == [];
      assert lines[0] + "\n" + "" == lines[0] + "\n";
    } else {
      JoinedLines(lines[1..]);
      Associates(lines[0] + "\n", Join(lines[1..], "\n"), "\n");
    }
  }

  lemma {:induction false} TextOfConcat(a: seq<string>, b: seq<string>)
    ensures TextOf(a + b) == TextOf(a) + TextOf(b)
  {
    if a == [] {
      assert a + b == b;
    } else {
      TextOfConcat(a[1..], b);
      assert (a + b)[1..] == a[1..] + b;
      Associates(a[0] + "\n", TextOf(a[1..]), TextOf(b));
    }
  }

  lemma {:induction false} JoinedBlocks(blocks: seq<string>, hasHttp: bool)
    requires blocks != []
    ensures Join(BlockTexts(blocks, hasHttp), "\n\n") + "\n" == TextOf(BlockLines(blocks, hasHttp))
  {
    hide Lines, Join, BlockTexts, TextOf;
    var lines := Lines(blocks[0], hasHttp);
    LinesAreSome(blocks[0], hasHttp);
    JoinedLines(lines);
    JoinedTexts(blocks, hasHttp);
    if |blocks| > 1 {
      JoinedBlocks(blocks[1..], hasHttp);
      LinesApart(lines, BlockLines(blocks[1..], hasHttp));
      OneEmptyLine(Join(lines, "\n"), Join(BlockTexts(blocks[1..], hasHttp), "\n\n"));
    }
  }

  lemma {:induction false} LinesAreSome(name: string, hasHttp: bool)
    ensures Lines(name, hasHttp) != []
  {
  }

  lemma {:induction false} JoinedTexts(blocks: seq<string>, hasHttp: bool)
    requires blocks != []
    ensures var text := Join(Lines(blocks[0], hasHttp), "\n");
      Join(BlockTexts(blocks, hasHttp), "\n\n") ==
        if |blocks| == 1 then text else text + "\n\n" + Join(BlockTexts(blocks[1..], hasHttp), "\n\n")
  {
    hide Lines;
    assert BlockTexts(blocks, hasHttp)[1..] == BlockTexts(blocks[1..], hasHttp);
  }

  lemma {:induction false} LinesApart(lines: seq<string>, later: seq<string>)
    ensures TextOf(lines + ([""] + later)) == TextOf(lines) + ("\n" + TextOf(later))
  {
    TextOfConcat(lines, [""] + later);
    assert ([""] + later)[1..] == later && "" + "\n" == "\n";
  }

  lemma {:induction false} OneEmptyLine(a: string, b: string)
    ensures a + "\n\n" + b + "\n" == (a + "\n") + ("\n" + (b + "\n"))
  {
  }

  /** The skeleton is the blocks' lines, an empty line between two blocks, each line with its line end. */
  lemma {:induction false} SkeletonIsItsLines(o: Order, events: seq<string>, normalise: string -> string)
    ensures Selected(o, events, normalise) == [] ==> Skeleton(o, events, normalise) == ""
    ensures Selected(o, events, normalise) != [] ==>
              Skeleton(o, events, normalise) ==
                TextOf(BlockLines(Blocks(o, events, normalise), AnyHttp(Selected(o, events, normalise))))
  {
    var selected, blocks := Selected(o, events, normalise), Blocks(o, events, normalise);
    if selected != [] {
      OthersHold(selected, RuleInit);
      assert selected[0] in selected;
      assert selected[0] != RuleInit ==> selected[0] in Others(selected, RuleInit);
      assert blocks != [];
      JoinedBlocks(blocks, AnyHttp(selected));
      hide Selected, Blocks, Lines, AnyHttp;
    }
  }

  /** Catalogued events come first and in the catalogue's order, the others after them and as the locale collates. */
  lemma {:induction false} SelectedInOrder(o: Order, events: seq<string>, normalise: string -> string, i: nat, j: nat)
    requires Collation(o.collate) && i < j < |Selected(o, events, normalise)|
    ensures var a, b := Selected(o, events, normalise)[i], Selected(o, events, normalise)[j];
      && (a in o.catalogue && b in o.catalogue ==> IndexIn(o.catalogue, a) < IndexIn(o.catalogue, b))
      && (a !in o.catalogue ==> b !in o.catalogue && o.collate(a, b) <= 0)
  {
    SelectedAre(o, events, normalise);
    var a, b := Selected(o, events, normalise)[i], Selected(o, events, normalise)[j];
    CataloguedAre(o.catalogue, a);
    CataloguedAre(o.catalogue, b);
    assert Compare(o, a, b) <= 0 && a != b;
    hide Selected, Chosen, Sorted, Distinct;
  }

  lemma {:induction false} CataloguedAre(catalogue: seq<string>, name: string)
    ensures name in catalogue <==> IndexIn(catalogue, name) >= 0
  {
    if catalogue == [] {
    } else {
      CataloguedAre(catalogue[..|catalogue| - 1], name);
      assert catalogue == catalogue[..|catalogue| - 1] + [catalogue[|catalogue| - 1]];
    }
  }

  /** Each chosen event has one block, `RULE_INIT` comes first when chosen, and only `CLIENT_ACCEPTED` is ever added. */
  lemma {:induction false} BlocksAreTheEvents(o: Order, events: seq<string>, normalise: string -> string)
    requires Collation(o.collate)
    ensures var blocks := Blocks(o, events, normalise);
      && Distinct(blocks)
      && (RuleInit in blocks <==> Chosen(events, normalise, RuleInit))
      && (RuleInit in blocks ==> blocks[0] == RuleInit)
      && forall name ::
           name in blocks <==>
           Chosen(events, normalise, name) || (name == ClientAccepted && HttpIsChosen(events, normalise))
  {
    var selected := Selected(o, events, normalise);
    SelectedAre(o, events, normalise);
    OthersHold(selected, RuleInit);
    OthersKeepOrder(o, selected, RuleInit);
    HttpChosen(o, events, normalise);
    hide SortEvents, UniqueNames, Others, Compare, Chosen, AnyHttp, Sorted;
  }

  lemma {:induction false} SelectedAre(o: Order, events: seq<string>, normalise: string -> string)
    requires Collation(o.collate)
    ensures Sorted(o, Selected(o, events, normalise)) && Distinct(Selected(o, events, normalise))
    ensures forall name :: name in Selected(o, events, normalise) <==> Chosen(events, normalise, name)
  {
    UniqueNamesAre(events, normalise);
    SortSorts(o, UniqueNames(events, normalise));
  }

  lemma {:induction false} HttpChosen(o: Order, events: seq<string>, normalise: string -> string)
    requires Collation(o.collate)
    ensures AnyHttp(Selected(o, events, normalise)) <==> HttpIsChosen(events, normalise)
  {
    var selected := Selected(o, events, normalise);
    SelectedAre(o, events, normalise);
    if h :| IsHttp(h) && Chosen(events, normalise, h) {
      assert h in selected;
    }
    if AnyHttp(selected) {
      var i :| 0 <= i < |selected| && IsHttp(selected[i]);
      assert selected[i] in selected;
    }
  }

  // Independence from the order and the repetitions of the selection.

  ghost predicate SameChoice(events: seq<string>, others: seq<string>, normalise: string -> string)
  {
    forall name :: Chosen(events, normalise, name) <==> Chosen(others, normalise, name)
  }

  /** The names whose order the sort decides: `RULE_INIT` is moved to the front in any case. */
  ghost function Ranked(events: seq<string>, normalise: string -> string): (r: seq<string>)
  {
    Others(UniqueNames(events, normalise), RuleInit)
  }

  /** Selections of the same names give the same skeleton when no two of the names compare equal. */
  lemma {:induction false} SkeletonDependsOnNames(
    o: Order, events: seq<string>, others: seq<string>, normalise: string -> string)
    requires Collation(o.collate) && SameChoice(events, others, normalise)
    requires Tells(o, Ranked(events, normalise))
    ensures Skeleton(o, events, normalise) == Skeleton(o, others, normalise)
  {
    SameBlocks(o, events, others, normalise);
    SameSelectedNames(o, events, others, normalise);
    SameEmpty(Selected(o, events, normalise), Selected(o, others, normalise));
    hide Blocks, Selected, Lines, AnyHttp;
  }

  lemma {:induction false} SameSelectedNames(
    o: Order, events: seq<string>, others: seq<string>, normalise: string -> string)
    requires Collation(o.collate) && SameChoice(events, others, normalise)
    ensures SameNames(Selected(o, events, normalise), Selected(o, others, normalise))
    ensures AnyHttp(Selected(o, events, normalise)) <==> AnyHttp(Selected(o, others, normalise))
  {
    SelectedAre(o, events, normalise);
    SelectedAre(o, others, normalise);
    HttpChosen(o, events, normalise);
    HttpChosen(o, others, normalise);
    hide Selected, Chosen, AnyHttp, IsHttp, Sorted, Distinct;
  }

  lemma {:induction false} SameBlocks(
    o: Order, events: seq<string>, others: seq<string>, normalise: string -> string)
    requires Collation(o.collate) && SameChoice(events, others, normalise)
    requires Tells(o, Ranked(events, normalise))
    ensures Blocks(o, events, normalise) == Blocks(o, others, normalise)
  {
    var xs, ys := Selected(o, events, normalise), Selected(o, others, normalise);
    var unique := UniqueNames(events, normalise);
    SelectedAre(o, events, normalise);
    SelectedAre(o, others, normalise);
    UniqueNamesAre(events, normalise);
    SameSelectedNames(o, events, others, normalise);
    OthersHold(xs, RuleInit);
    OthersHold(ys, RuleInit);
    OthersHold(unique, RuleInit);
    OthersKeepOrder(o, xs, RuleInit);
    OthersKeepOrder(o, ys, RuleInit);
    hide Selected, Chosen, UniqueNames, Sorted, Distinct, Tells, Others, AnyHttp, Collation;
    TellsSame(o, Ranked(events, normalise), Others(xs, RuleInit));
    SortedIsUnique(o, Others(xs, RuleInit), Others(ys, RuleInit));
  }

  lemma {:induction false} TellsSame(o: Order, xs: seq<string>, ys: seq<string>)
    requires Tells(o, xs) && SameNames(xs, ys)
    ensures Tells(o, ys)
  {
    hide Compare;
    forall i, j | 0 <= i < |ys| && 0 <= j < |ys| && Compare(o, ys[i], ys[j]) == 0
      ensures ys[i] == ys[j]
    {
      assert ys[i] in xs && ys[j] in xs;
    }
  }

  /** The blocks depend on nothing but the names exactly when no two of the names, `RULE_INIT` aside, compare
      equal. */
  lemma {:induction false} OrderedByNamesExactlyWhenTold(o: Order, events: seq<string>, normalise: string -> string)
    requires Collation(o.collate)
    ensures Tells(o, Ranked(events, normalise)) <==>
      forall others ::
        SameChoice(events, others, normalise) ==> Blocks(o, others, normalise) == Blocks(o, events, normalise)
  {
    hide Collation, SameChoice, Blocks, Ranked, Tells;
    if Tells(o, Ranked(events, normalise)) {
      forall others | SameChoice(events, others, normalise)
        ensures Blocks(o, others, normalise) == Blocks(o, events, normalise)
      {
        SameBlocks(o, events, others, normalise);
      }
    } else {
      var a, b := Untold(o, events, normalise);
      RepeatKeepsChoice(events, normalise, a);
      RepeatKeepsChoice(events, normalise, b);
      EitherGoesFirst(o, events, normalise, a, b);
    }
  }

  /** One letter with an accent, as one character and as two: canonically equivalent, so every locale collates them
      equal, and upper-casing keeps them apart. */
  const Composed := "\U{C9}"
  const Decomposed := "E\U{301}"

  /** With the generated catalogue, the two spellings keep the order they were chosen in. */
  lemma {:induction false} TieKeepsChoiceOrder(collate: (string, string) -> int, normalise: string -> string)
    requires Collation(collate) && collate(Composed, Decomposed) == 0
    requires normalise(Composed) == Composed && normalise(Decomposed) == Decomposed
    ensures var o := Order(CommonEvents, collate);
      && Blocks(o, [Composed, Decomposed], normalise) == [Composed, Decomposed]
      && Blocks(o, [Decomposed, Composed], normalise) == [Decomposed, Composed]
  {
    var o := Order(CommonEvents, collate);
    AccentedIsUncommon();
    assert collate(Decomposed, Composed) == 0;
    hide Collation, CommonEvents;
    TieKeeps(o, Composed, Decomposed, normalise);
    TieKeeps(o, Decomposed, Composed, normalise);
  }

  lemma {:induction false} AccentedIsUncommon()
    ensures IndexIn(CommonEvents, Composed) < 0 && IndexIn(CommonEvents, Decomposed) < 0
  {
    assert forall i :: 0 <= i < |CommonEvents| ==> |CommonEvents[i]| > 2;
  }

  lemma {:induction false} TieKeeps(o: Order, a: string, b: string, normalise: string -> string)
    requires Collation(o.collate) && Compare(o, b, a) >= 0 && normalise(a) == a && normalise(b) == b && a != b
    requires forall x :: x in [a, b] ==> x != "" && x != RuleInit && !IsHttp(x)
    ensures Blocks(o, [a, b], normalise) == [a, b]
  {
    assert a in [a, b] && b in [a, b];
    hide Compare, Collation, IsHttp;
    TwoNames(a, b, normalise);
    TwoSorted(o, a, b);
    OthersHold([a, b], RuleInit);
  }

  /** Two events whose names can be told apart by nothing but their order. */
  ghost predicate Tied(o: Order, events: seq<string>, normalise: string -> string, a: nat, b: nat)
  {
    && a < |events| && b < |events|
    && var x, y := normalise(events[a]), normalise(events[b]);
       && x != "" && y != "" && x != RuleInit && y != RuleInit
       && x != y && Compare(o, x, y) == 0
  }

  lemma {:induction false} Untold(o: Order, events: seq<string>, normalise: string -> string) returns (a: nat, b: nat)
    requires !Tells(o, Ranked(events, normalise))
    ensures Tied(o, events, normalise, a, b)
  {
    hide Compare;
    var names := Ranked(events, normalise);
    UniqueNamesAre(events, normalise);
    OthersHold(UniqueNames(events, normalise), RuleInit);
    hide UniqueNames, Others, Distinct;
    var i, j :| 0 <= i < |names| && 0 <= j < |names| && Compare(o, names[i], names[j]) == 0 && names[i] != names[j];
    assert names[i] in names && names[j] in names;
    a :| 0 <= a < |events| && normalise(events[a]) == names[i];
    b :| 0 <= b < |events| && normalise(events[b]) == names[j];
  }

  /** Of two names that compare equal, the one chosen first comes first. */
  lemma {:induction false} EitherGoesFirst(
    o: Order, events: seq<string>, normalise: string -> string, a: nat, b: nat)
    requires Collation(o.collate) && Tied(o, events, normalise, a, b)
    ensures Blocks(o, [events[a]] + events, normalise) != Blocks(o, [events[b]] + events, normalise)
  {
    var x, y := normalise(events[a]), normalise(events[b]);
    CompareIsPreorder(o, x, y, x);
    BlocksAreTheEvents(o, [events[a]] + events, normalise);
    hide Collation, Compare, Blocks, Selected, Distinct, Precedes, Chosen, HttpIsChosen;
    FirstGoesFirst(o, events, normalise, a, b);
    FirstGoesFirst(o, events, normalise, b, a);
    BlocksKeepOrder(o, [events[a]] + events, normalise, x, y);
    BlocksKeepOrder(o, [events[b]] + events, normalise, y, x);
    OrdersDiffer(Blocks(o, [events[a]] + events, normalise), Blocks(o, [events[b]] + events, normalise), x, y);
  }

  lemma {:induction false} BlocksKeepOrder(
    o: Order, events: seq<string>, normalise: string -> string, a: string, b: string)
    requires Precedes(Selected(o, events, normalise), a, b) && a != RuleInit && b != RuleInit
    ensures Precedes(Blocks(o, events, normalise), a, b)
  {
    var selected := Selected(o, events, normalise);
    OthersPrecede(selected, RuleInit, a, b);
    hide Selected, Others;
    var others, lead := Others(selected, RuleInit), Lead(selected);
    var i, j :| 0 <= i < j < |others| && others[i] == a && others[j] == b;
    var blocks := Blocks(o, events, normalise);
    assert blocks[lead + i] == a && blocks[lead + j] == b;
  }

  lemma {:induction false} OthersPrecede(xs: seq<string>, x: string, a: string, b: string)
    requires Precedes(xs, a, b) && a != x && b != x
    ensures Precedes(Others(xs, x), a, b)
  {
    var i, j :| 0 <= i < j < |xs| && xs[i] == a && xs[j] == b;
    var rest, kept := Others(xs[1..], x), if xs[0] == x then [] else [xs[0]];
    assert xs[1..][j - 1] == b && b in xs[1..];
    if i == 0 {
      OthersHold(xs[1..], x);
      var k :| 0 <= k < |rest| && rest[k] == b;
      assert Others(xs, x)[0] == a && Others(xs, x)[1 + k] == b;
    } else {
      assert xs[1..][i - 1] == a;
      OthersPrecede(xs[1..], x, a, b);
      var k, l :| 0 <= k < l < |rest| && rest[k] == a && rest[l] == b;
      assert Others(xs, x)[|kept| + k] == a && Others(xs, x)[|kept| + l] == b;
    }
  }

  ghost predicate Precedes(xs: seq<string>, a: string, b: string)
  {
    exists i, j :: 0 <= i < j < |xs| && xs[i] == a && xs[j] == b
  }

  lemma {:induction false} OrdersDiffer(xs: seq<string>, ys: seq<string>, a: string, b: string)
    requires Distinct(xs) && Precedes(xs, a, b) && Precedes(ys, b, a)
    ensures xs != ys
  {
  }

  lemma {:induction false} RepeatKeepsChoice(events: seq<string>, normalise: string -> string, k: nat)
    requires k < |events|
    ensures SameChoice(events, [events[k]] + events, normalise)
  {
    var more := [events[k]] + events;
    forall name
      ensures Chosen(events, normalise, name) <==> Chosen(more, normalise, name)
    {
      if Chosen(events, normalise, name) {
        var i :| 0 <= i < |events| && normalise(events[i]) == name;
        assert more[i + 1] == events[i];
      }
      if Chosen(more, normalise, name) {
        var i :| 0 <= i < |more| && normalise(more[i]) == name;
        assert more[i] == if i == 0 then events[k] else events[i - 1];
      }
    }
  }

  /** Named first, an event stays before every other that does not sort below it. */
  lemma {:induction false} FirstGoesFirst(o: Order, events: seq<string>, normalise: string -> string, a: nat, b: nat)
    requires Collation(o.collate) && a < |events| && b < |events|
    requires normalise(events[a]) != "" && normalise(events[b]) != ""
    requires normalise(events[a]) != normalise(events[b]) && Compare(o, normalise(events[a]), normalise(events[b])) <= 0
    ensures Precedes(Selected(o, [events[a]] + events, normalise), normalise(events[a]), normalise(events[b]))
  {
    var more := [events[a]] + events;
    var names := UniqueNames(more, normalise);
    UniqueStartsWithFirst(more, normalise);
    UniqueNamesAre(more, normalise);
    assert more[b + 1] == events[b];
    assert Chosen(more, normalise, normalise(events[b]));
    HeadTail(names);
    SortSorts(o, names[1..]);
    InsertGoesFirst(o, names[0], SortEvents(o, names[1..]), normalise(events[b]));
  }

  lemma {:induction false} UniqueStartsWithFirst(events: seq<string>, normalise: string -> string)
    requires events != [] && normalise(events[0]) != ""
    ensures UniqueNames(events, normalise) != [] && UniqueNames(events, normalise)[0] == normalise(events[0])
  {
    if |events| == 1 {
      assert events[..0] == [];
    } else {
      UniqueStartsWithFirst(events[..|events| - 1], normalise);
    }
  }

  lemma {:induction false} InsertGoesFirst(o: Order, x: string, xs: seq<string>, y: string)
    requires y in xs && Compare(o, x, y) <= 0
    ensures Precedes(Insert(o, x, xs), x, y)
  {
    var r := Insert(o, x, xs);
    if Compare(o, x, xs[0]) <= 0 {
      var j :| 0 <= j < |xs| && xs[j] == y;
      assert r[0] == x && r[j + 1] == y;
    } else {
      InsertGoesFirst(o, x, xs[1..], y);
      var rest := Insert(o, x, xs[1..]);
      var i, j :| 0 <= i < j < |rest| && rest[i] == x && rest[j] == y;
      assert r[i + 1] == x && r[j + 1] == y;
    }
  }

  // The debug flag.

  /** Every block that reads the debug flag comes after one that sets it. */
  ghost predicate DebugIsSet(blocks: seq<string>, hasHttp: bool)
  {
    forall j :: 0 <= j < |blocks| && ReadsDebug(Lines(blocks[j], hasHttp)) ==>
      exists i :: 0 <= i < j && SetsDebug(Lines(blocks[i], hasHttp))
  }

  /** `CLIENT_ACCEPTED` sorts below each HTTP event. */
  ghost predicate AcceptedSortsFirst(o: Order)
  {
    forall h :: IsHttp(h) ==> Compare(o, ClientAccepted, h) < 0
  }

  lemma {:induction false} SortedKeepsBelow(o: Order, xs: seq<string>, i: nat, j: nat)
    requires Collation(o.collate) && Sorted(o, xs) && i < |xs| && j < |xs| && Compare(o, xs[i], xs[j]) < 0
    ensures i < j
  {
    CompareIsPreorder(o, xs[i], xs[j], xs[i]);
    hide Compare, Collation;
  }

  /** How many blocks come before the sorted events. */
  function Lead(selected: seq<string>): (n: nat)
  {
    (if RuleInit in selected then 1 else 0) + (if ClientAccepted !in selected && AnyHttp(selected) then 1 else 0)
  }

  lemma {:induction false} ArrangedHttp(selected: seq<string>, j: nat)
    requires j < |Arrange(selected)| && IsHttp(Arrange(selected)[j])
    ensures Lead(selected) <= j && j - Lead(selected) < |Others(selected, RuleInit)|
    ensures Arrange(selected)[j] == Others(selected, RuleInit)[j - Lead(selected)]
    ensures AnyHttp(selected)
  {
    hide Others, AnyHttp;
    assert !IsHttp(RuleInit) && !IsHttp(ClientAccepted);
    hide IsHttp;
    assert Lead(selected) <= j;
    OthersHold(selected, RuleInit);
    var h := Others(selected, RuleInit)[j - Lead(selected)];
    assert h in Others(selected, RuleInit);
    HttpAmong(selected, h);
  }

  lemma {:induction false} HttpAmong(names: seq<string>, h: string)
    requires h in names && IsHttp(h)
    ensures AnyHttp(names)
  {
  }

  lemma {:induction false} AcceptedComesBefore(o: Order, selected: seq<string>, j: nat) returns (i: nat)
    requires Collation(o.collate) && AcceptedSortsFirst(o) && Sorted(o, selected) && Distinct(selected)
    requires j < |Arrange(selected)| && IsHttp(Arrange(selected)[j])
    ensures AnyHttp(selected) && i < j && Arrange(selected)[i] == ClientAccepted
  {
    hide Compare, Collation, Others, Sorted, Distinct, AcceptedSortsFirst, IsHttp, AnyHttp;
    var others, lead := Others(selected, RuleInit), Lead(selected);
    ArrangedHttp(selected, j);
    if ClientAccepted in selected {
      OthersHold(selected, RuleInit);
      OthersKeepOrder(o, selected, RuleInit);
      var k :| 0 <= k < |others| && others[k] == ClientAccepted;
      SortsBelow(o, others[j - lead]);
      SortedKeepsBelow(o, others, k, j - lead);
      i := lead + k;
    } else {
      i := lead - 1;
    }
  }

  lemma {:induction false} SortsBelow(o: Order, h: string)
    requires AcceptedSortsFirst(o) && IsHttp(h)
    ensures Compare(o, ClientAccepted, h) < 0
  {
  }

  lemma {:induction false} FlagIsSet(o: Order, events: seq<string>, normalise: string -> string)
    requires Collation(o.collate) && AcceptedSortsFirst(o)
    ensures DebugIsSet(Blocks(o, events, normalise), AnyHttp(Selected(o, events, normalise)))
  {
    var selected, blocks := Selected(o, events, normalise), Blocks(o, events, normalise);
    SelectedAre(o, events, normalise);
    hide Lines, ReadsDebug, SetsDebug, Selected, Arrange, Compare;
    forall j | 0 <= j < |blocks| && ReadsDebug(Lines(blocks[j], AnyHttp(selected)))
      ensures exists i :: 0 <= i < j && SetsDebug(Lines(blocks[i], AnyHttp(selected)))
    {
      OnlyHttpReadsDebug(blocks[j], AnyHttp(selected));
      var i := AcceptedComesBefore(o, selected, j);
      ClientAcceptedSetsDebug();
    }
  }

  /** Chosen in this order, the two events keep it unless `CLIENT_ACCEPTED` sorts below. */
  lemma {:induction false} FlagIsRead(o: Order, h: string, normalise: string -> string)
    requires Collation(o.collate) && IsHttp(h) && Compare(o, ClientAccepted, h) >= 0
    requires normalise(h) == h && normalise(ClientAccepted) == ClientAccepted
    ensures !DebugIsSet(Blocks(o, [h, ClientAccepted], normalise), AnyHttp(Selected(o, [h, ClientAccepted], normalise)))
  {
    var events := [h, ClientAccepted];
    TwoNames(h, ClientAccepted, normalise);
    TwoSorted(o, h, ClientAccepted);
    TwoArranged(h);
    hide Lines, ReadsDebug, SetsDebug, Selected, Arrange;
    HttpReadsDebug(h, AnyHttp(Selected(o, events, normalise)));
    assert Blocks(o, events, normalise)[0] == h;
  }

  lemma {:induction false} TwoNames(a: string, b: string, normalise: string -> string)
    requires a != b && a != "" && b != "" && normalise(a) == a && normalise(b) == b
    ensures UniqueNames([a, b], normalise) == [a, b]
  {
    assert [a, b][..1] == [a] && [a][..0] == [];
    assert UniqueNames([], normalise) == [];
    assert UniqueNames([a], normalise) == [a];
  }

  lemma {:induction false} TwoSorted(o: Order, a: string, b: string)
    requires Collation(o.collate) && Compare(o, b, a) >= 0
    ensures SortEvents(o, [a, b]) == [a, b]
  {
    CompareIsPreorder(o, a, b, a);
    assert [a, b][1..] == [b] && [b][1..] == [];
    assert SortEvents(o, []) == [];
    assert SortEvents(o, [b]) == [b];
    hide Compare;
    assert Insert(o, a, [b]) == [a, b];
  }

  lemma {:induction false} TwoArranged(h: string)
    requires IsHttp(h)
    ensures Arrange([h, ClientAccepted]) == [h, ClientAccepted]
  {
    OthersHold([h, ClientAccepted], RuleInit);
  }

  /** Over all selections, no block reads an unset flag exactly when `CLIENT_ACCEPTED` sorts below each HTTP event. */
  lemma {:induction false} FlagIsSetExactlyWhen(o: Order, normalise: string -> string)
    requires Collation(o.collate)
    requires normalise(ClientAccepted) == ClientAccepted && forall h :: IsHttp(h) ==> normalise(h) == h
    ensures AcceptedSortsFirst(o) <==>
      forall events :: DebugIsSet(Blocks(o, events, normalise), AnyHttp(Selected(o, events, normalise)))
  {
    hide Blocks, DebugIsSet, Selected, AnyHttp, Compare, Collation;
    if AcceptedSortsFirst(o) {
      forall events
        ensures DebugIsSet(Blocks(o, events, normalise), AnyHttp(Selected(o, events, normalise)))
      {
        FlagIsSet(o, events, normalise);
      }
    } else {
      var h :| IsHttp(h) && Compare(o, ClientAccepted, h) >= 0;
      FlagIsRead(o, h, normalise);
    }
  }

  /** The catalogue's common events, in its order. */
  const CommonEvents: seq<string> :=
    ["CLIENTSSL_HANDSHAKE", "CLIENT_ACCEPTED", "CLIENT_CLOSED", "DNS_REQUEST", "DNS_RESPONSE", "HTTP_REQUEST",
     "HTTP_REQUEST_DATA", "HTTP_RESPONSE", "HTTP_RESPONSE_DATA", "LB_FAILED", "LB_SELECTED", "RULE_INIT",
     "SERVERSSL_HANDSHAKE", "SERVER_CLOSED", "SERVER_CONNECTED"]

  lemma {:induction false} IndexIsLast(catalogue: seq<string>, name: string, k: nat)
    requires k < |catalogue| && catalogue[k] == name && forall i :: k < i < |catalogue| ==> catalogue[i] != name
    ensures IndexIn(catalogue, name) == k
  {
    if k < |catalogue| - 1 {
      IndexIsLast(catalogue[..|catalogue| - 1], name, k);
    }
  }

  lemma {:induction false} CommonPositions()
    ensures IndexIn(CommonEvents, "CLIENT_ACCEPTED") == 1
    ensures IndexIn(CommonEvents, "HTTP_REQUEST") == 5 && IndexIn(CommonEvents, "HTTP_REQUEST_DATA") == 6
    ensures IndexIn(CommonEvents, "HTTP_RESPONSE") == 7 && IndexIn(CommonEvents, "HTTP_RESPONSE_DATA") == 8
  {
    hide IndexIn;
    IndexIsLast(CommonEvents, "CLIENT_ACCEPTED", 1);
    IndexIsLast(CommonEvents, "HTTP_REQUEST", 5);
    IndexIsLast(CommonEvents, "HTTP_REQUEST_DATA", 6);
    IndexIsLast(CommonEvents, "HTTP_RESPONSE", 7);
    IndexIsLast(CommonEvents, "HTTP_RESPONSE_DATA", 8);
  }

  /** With the generated catalogue the flag is always set. */
  lemma {:induction false} CommonEventsSetTheFlag(
    collate: (string, string) -> int, events: seq<string>, normalise: string -> string)
    requires Collation(collate)
    ensures var o := Order(CommonEvents, collate);
      DebugIsSet(Blocks(o, events, normalise), AnyHttp(Selected(o, events, normalise)))
  {
    CommonPositions();
    hide IndexIn, Blocks, DebugIsSet, Selected, Collation;
    FlagIsSet(Order(CommonEvents, collate), events, normalise);
  }
}
