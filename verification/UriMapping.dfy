/** The translation of workspace URIs across the WASI sandbox boundary. */
module UriMapping {
  import opened Sequences
  import opened GuestPath

  datatype Folder = Folder(uri: string, name: string)

  datatype Pair = Pair(editor: string, guest: string)

  /** The side a value is read on. */
  datatype Side = Editor | Guest

  function On(p: Pair, side: Side): (s: string)
  {
    if side == Editor then p.editor else p.guest
  }

  function Other(side: Side): (s: Side)
  {
    if side == Editor then Guest else Editor
  }

  function TrimTrailingSlash(uri: string): (r: string)
  {
    if uri != "" && uri[|uri| - 1] == '/' then uri[..|uri| - 1] else uri
  }

  function GuestMountPoint(name: string, multiRoot: bool): (r: string)
  {
    if multiRoot then "/workspaces/" + name else "/workspace"
  }

  function PairFor(f: Folder, multiRoot: bool): (p: Pair)
  {
    Pair(TrimTrailingSlash(f.uri), "file://" + Encode(GuestMountPoint(f.name, multiRoot)))
  }

  /** Stable insertion, longest editor URI first. */
  function Insert(p: Pair, ps: seq<Pair>): (r: seq<Pair>)
  {
    if ps == [] || |ps[0].editor| <= |p.editor| then [p] + ps else [ps[0]] + Insert(p, ps[1..])
  }

  /** The sorted pairs of the folders from index `from` on. */
  function PairsFrom(folders: seq<Folder>, from: nat): (r: seq<Pair>)
    requires from <= |folders|
    decreases |folders| - from
  {
    if from == |folders| then []
    else Insert(PairFor(folders[from], |folders| > 1), PairsFrom(folders, from + 1))
  }

  /** `wasiUriMapping`: the pairs in the order `translate` tries them. */
  function Pairs(folders: seq<Folder>): (r: seq<Pair>)
  {
    PairsFrom(folders, 0)
  }

  /** Whole-component prefix: the value is the prefix itself or goes on with `/`. */
  predicate AtOrUnder(prefix: string, value: string)
  {
    value == prefix || prefix + "/" <= value
  }

  function TranslateBy(ps: seq<Pair>, value: string, from: Side): (r: string)
  {
    if ps == [] then value
    else if AtOrUnder(On(ps[0], from), value) then On(ps[0], Other(from)) + value[|On(ps[0], from)|..]
    else TranslateBy(ps[1..], value, from)
  }

  function ToGuest(folders: seq<Folder>, uri: string): (r: string)
  {
    TranslateBy(Pairs(folders), uri, Editor)
  }

  function ToEditor(folders: seq<Folder>, uri: string): (r: string)
  {
    TranslateBy(Pairs(folders), uri, Guest)
  }

  /** The loop of `translate`, with its early returns. */
  method Translate(pairs: seq<Pair>, value: string, from: Side) returns (r: string)
    ensures r == TranslateBy(pairs, value, from)
  {
    var i := 0;
    while i < |pairs|
      invariant 0 <= i <= |pairs|
      invariant TranslateBy(pairs[i..], value, from) == TranslateBy(pairs, value, from)
    {
      var prefix := On(pairs[i], from);
      if value == prefix {
        assert On(pairs[i], Other(from)) + value[|prefix|..] == On(pairs[i], Other(from));
        return On(pairs[i], Other(from));
      }
      if prefix + "/" <= value {
        return On(pairs[i], Other(from)) + value[|prefix|..];
      }
      assert pairs[i..][1..] == pairs[i + 1..];
      i := i + 1;
    }
    return value;
  }

  // What is in the sorted table, and in which order.

  ghost predicate LongestFirst(ps: seq<Pair>)
  {
    forall i, j :: 0 <= i < j < |ps| ==> |ps[i].editor| >= |ps[j].editor|
  }

  lemma {:induction false} InsertKeeps(p: Pair, ps: seq<Pair>)
    requires LongestFirst(ps)
    ensures LongestFirst(Insert(p, ps))
    ensures forall q :: q in Insert(p, ps) <==> q == p || q in ps
  {
    if ps != [] && |ps[0].editor| > |p.editor| {
      InsertKeeps(p, ps[1..]);
      var r := Insert(p, ps[1..]);
      forall i, j | 0 <= i < j < |r| + 1
        ensures |([ps[0]] + r)[i].editor| >= |([ps[0]] + r)[j].editor|
      {
        assert r[j - 1] in r;
      }
    }
  }

  /** The table holds exactly the folders' pairs, longest editor URI first, whatever order they came in. */
  lemma {:induction false} PairsFromOrdered(folders: seq<Folder>, from: nat)
    requires from <= |folders|
    ensures LongestFirst(PairsFrom(folders, from))
    ensures forall q :: q in PairsFrom(folders, from) <==>
              exists k :: from <= k < |folders| && q == PairFor(folders[k], |folders| > 1)
    decreases |folders| - from
  {
    hide PairFor, Insert;
    if from < |folders| {
      PairsFromOrdered(folders, from + 1);
      InsertKeeps(PairFor(folders[from], |folders| > 1), PairsFrom(folders, from + 1));
    }
  }

  ghost function EditorOf(folders: seq<Folder>, k: nat): (r: string)
    requires k < |folders|
  {
    TrimTrailingSlash(folders[k].uri)
  }

  ghost function MountOf(folders: seq<Folder>, k: nat): (r: string)
    requires k < |folders|
  {
    "file://" + Encode(GuestMountPoint(folders[k].name, |folders| > 1))
  }

  /** The rewriting that `TranslateBy` picks: the first pair that covers the value, when one does. */
  lemma {:induction false} FirstCovering(ps: seq<Pair>, value: string, from: Side) returns (k: nat)
    requires exists p :: p in ps && AtOrUnder(On(p, from), value)
    ensures k < |ps| && AtOrUnder(On(ps[k], from), value)
    ensures forall i :: 0 <= i < k ==> !AtOrUnder(On(ps[i], from), value)
    ensures TranslateBy(ps, value, from) == On(ps[k], Other(from)) + value[|On(ps[k], from)|..]
  {
    hide AtOrUnder, On;
    if AtOrUnder(On(ps[0], from), value) {
      k := 0;
    } else {
      var p :| p in ps && AtOrUnder(On(p, from), value);
      assert p in ps[1..];
      var j := FirstCovering(ps[1..], value, from);
      k := j + 1;
    }
  }

  lemma {:induction false} NothingCovers(ps: seq<Pair>, value: string, from: Side)
    requires forall p :: p in ps ==> !AtOrUnder(On(p, from), value)
    ensures TranslateBy(ps, value, from) == value
  {
    if ps == [] {
    } else {
      NothingCovers(ps[1..], value, from);
    }
  }

  lemma {:induction false} InTable(folders: seq<Folder>, p: Pair) returns (k: nat)
    requires p in Pairs(folders)
    ensures k < |folders| && p == PairFor(folders[k], |folders| > 1)
  {
    PairsFromOrdered(folders, 0);
    k :| 0 <= k < |folders| && p == PairFor(folders[k], |folders| > 1);
  }

  lemma {:induction false} TableHas(folders: seq<Folder>, k: nat)
    requires k < |folders|
    ensures PairFor(folders[k], |folders| > 1) in Pairs(folders) && LongestFirst(Pairs(folders))
  {
    hide PairFor, PairsFrom, LongestFirst;
    PairsFromOrdered(folders, 0);
  }

  lemma {:induction false} FirstIsLongest(ps: seq<Pair>, value: string, k: nat, q: Pair)
    requires LongestFirst(ps) && k < |ps| && q in ps && AtOrUnder(q.editor, value)
    requires forall i :: 0 <= i < k ==> !AtOrUnder(ps[i].editor, value)
    ensures |q.editor| <= |ps[k].editor|
  {
    hide AtOrUnder;
    var j :| 0 <= j < |ps| && ps[j] == q;
  }

  /** The folder whose pair rewrites the value, as an index into the folders as given. */
  lemma {:induction false} CoveringFolder(folders: seq<Folder>, value: string, from: Side, c: nat) returns (k: nat)
    requires c < |folders| && AtOrUnder(On(PairFor(folders[c], |folders| > 1), from), value)
    ensures k < |folders|
    ensures var p := PairFor(folders[k], |folders| > 1);
            && AtOrUnder(On(p, from), value)
            && TranslateBy(Pairs(folders), value, from) == On(p, Other(from)) + value[|On(p, from)|..]
            && (from == Editor ==> |PairFor(folders[c], |folders| > 1).editor| <= |p.editor|)
  {
    hide AtOrUnder, TranslateBy, PairFor, Pairs, LongestFirst;
    var ps := Pairs(folders);
    TableHas(folders, c);
    var i := FirstCovering(ps, value, from);
    k := InTable(folders, ps[i]);
    if from == Editor {
      FirstIsLongest(ps, value, i, PairFor(folders[c], |folders| > 1));
    }
  }

  // No mount lies at or under another.

  /** Distinct display names, without a separator when they become path segments. */
  ghost predicate DistinctNames(folders: seq<Folder>)
  {
    && (forall i, j :: 0 <= i < j < |folders| ==> folders[i].name != folders[j].name)
    && (|folders| > 1 ==> forall i :: 0 <= i < |folders| ==> '/' !in folders[i].name)
  }

  lemma {:induction false} LongerHoldsSlash(base: string, a: string, b: string, value: string)
    requires AtOrUnder(base + a, value) && AtOrUnder(base + b, value) && |a| < |b|
    ensures '/' in b
  {
    SplitAt(base + a, value);
    SplitAt(base + b, value);
    assert value[|base + a|] == (base + b)[|base + a|] == b[|a|];
  }

  lemma {:induction false} SameSegment(base: string, a: string, b: string, value: string)
    requires '/' !in a && '/' !in b
    requires AtOrUnder(base + a, value) && AtOrUnder(base + b, value)
    ensures a == b
  {
    if |a| < |b| {
      LongerHoldsSlash(base, a, b, value);
    } else if |b| < |a| {
      LongerHoldsSlash(base, b, a, value);
    } else {
      SameLengthPrefix(base + a, base + b, value);
      DropPrefix(base, a);
      DropPrefix(base, b);
    }
  }

  /** A guest URI is at or under at most one mount. */
  lemma {:induction false} OneMount(folders: seq<Folder>, i: nat, j: nat, value: string)
    requires DistinctNames(folders) && i < |folders| && j < |folders|
    requires AtOrUnder(MountOf(folders, i), value) && AtOrUnder(MountOf(folders, j), value)
    ensures i == j
  {
    if i != j {
      var a, b := folders[i].name, folders[j].name;
      var base := "file://" + Encode("/workspaces/");
      MountForm(a);
      MountForm(b);
      EncodeShape(a);
      EncodeShape(b);
      SameSegment(base, Encode(a), Encode(b), value);
      EncodeInjective(a, b);
    }
  }

  lemma {:induction false} MountForm(name: string)
    ensures "file://" + Encode(GuestMountPoint(name, true)) == "file://" + Encode("/workspaces/") + Encode(name)
  {
    EncodeConcat("/workspaces/", name);
    Associates("file://", Encode("/workspaces/"), Encode(name));
  }

  lemma {:induction false} SplitAt(prefix: string, value: string)
    requires AtOrUnder(prefix, value)
    ensures prefix + value[|prefix|..] == value
    ensures var rest := value[|prefix|..]; rest == "" || rest[0] == '/'
  {
    if value != prefix {
      assert (prefix + "/")[..|prefix|] == prefix;
      assert value[|prefix|] == (prefix + "/")[|prefix|];
    }
  }

  lemma {:induction false} Under(prefix: string, rest: string)
    requires rest == "" || rest[0] == '/'
    ensures AtOrUnder(prefix, prefix + rest)
  {
    if rest == "" {
      assert prefix + rest == prefix;
    } else {
      assert prefix + rest == prefix + "/" + rest[1..];
    }
  }

  // The round trips.

  ghost predicate InFolder(folders: seq<Folder>, uri: string)
  {
    exists k :: 0 <= k < |folders| && AtOrUnder(EditorOf(folders, k), uri)
  }

  ghost predicate InMount(folders: seq<Folder>, uri: string)
  {
    exists k :: 0 <= k < |folders| && AtOrUnder(MountOf(folders, k), uri)
  }

  lemma {:induction false} Outside(folders: seq<Folder>, uri: string)
    ensures !InFolder(folders, uri) ==> ToGuest(folders, uri) == uri
    ensures !InMount(folders, uri) ==> ToEditor(folders, uri) == uri
  {
    hide AtOrUnder, Pairs, TranslateBy, TrimTrailingSlash, Encode;
    forall p | p in Pairs(folders)
      ensures !InFolder(folders, uri) ==> !AtOrUnder(p.editor, uri)
      ensures !InMount(folders, uri) ==> !AtOrUnder(p.guest, uri)
    {
      var k := InTable(folders, p);
      assert EditorOf(folders, k) == p.editor && MountOf(folders, k) == p.guest;
    }
    if !InFolder(folders, uri) {
      NothingCovers(Pairs(folders), uri, Editor);
    }
    if !InMount(folders, uri) {
      NothingCovers(Pairs(folders), uri, Guest);
    }
  }

  /** A URI under mount `k` translates back through folder `k`. */
  lemma {:induction false} BackThroughOwnMount(folders: seq<Folder>, k: nat, rest: string)
    requires DistinctNames(folders) && k < |folders| && (rest == "" || rest[0] == '/')
    ensures ToEditor(folders, MountOf(folders, k) + rest) == EditorOf(folders, k) + rest
  {
    var g := MountOf(folders, k) + rest;
    Under(MountOf(folders, k), rest);
    var j := CoveringFolder(folders, g, Guest, k);
    OneMount(folders, j, k, g);
    DropPrefix(MountOf(folders, k), rest);
  }

  lemma {:induction false} FolderRoundTrip(folders: seq<Folder>, uri: string)
    requires DistinctNames(folders) && InFolder(folders, uri)
    ensures ToEditor(folders, ToGuest(folders, uri)) == uri
  {
    var c :| 0 <= c < |folders| && AtOrUnder(EditorOf(folders, c), uri);
    var k := CoveringFolder(folders, uri, Editor, c);
    var e := EditorOf(folders, k);
    SplitAt(e, uri);
    BackThroughOwnMount(folders, k, uri[|e|..]);
  }

  /** Out and back is the identity exactly on the URIs under a folder and those that name no mount. */
  lemma {:induction false} EditorRoundTrip(folders: seq<Folder>, uri: string)
    requires DistinctNames(folders)
    ensures ToEditor(folders, ToGuest(folders, uri)) == uri <==>
              InFolder(folders, uri) || !InMount(folders, uri)
  {
    Outside(folders, uri);
    if InFolder(folders, uri) {
      FolderRoundTrip(folders, uri);
    } else if InMount(folders, uri) {
      var k :| 0 <= k < |folders| && AtOrUnder(MountOf(folders, k), uri);
      var m := MountOf(folders, k);
      SplitAt(m, uri);
      var rest := uri[|m|..];
      BackThroughOwnMount(folders, k, rest);
      Under(EditorOf(folders, k), rest);
    }
  }

  ghost predicate DistinctEditors(folders: seq<Folder>)
  {
    forall i, j :: 0 <= i < j < |folders| ==> EditorOf(folders, i) != EditorOf(folders, j)
  }

  /** No folder that covers the URI has a longer editor URI than folder `k`, which covers it. */
  ghost predicate MostSpecific(folders: seq<Folder>, k: nat, uri: string)
  {
    && k < |folders| && AtOrUnder(EditorOf(folders, k), uri)
    && forall j :: 0 <= j < |folders| && AtOrUnder(EditorOf(folders, j), uri) ==>
         |EditorOf(folders, j)| <= |EditorOf(folders, k)|
  }

  lemma {:induction false} SameLengthPrefix(a: string, b: string, value: string)
    requires AtOrUnder(a, value) && AtOrUnder(b, value) && |a| == |b|
    ensures a == b
  {
    SplitAt(a, value);
    SplitAt(b, value);
    assert a == value[..|a|] && b == value[..|b|];
  }

  /** The most specific folder decides, whatever order the folders were given in. */
  lemma {:induction false} MostSpecificWins(folders: seq<Folder>, k: nat, uri: string)
    requires DistinctEditors(folders) && MostSpecific(folders, k, uri)
    ensures ToGuest(folders, uri) == MountOf(folders, k) + uri[|EditorOf(folders, k)|..]
  {
    var j := CoveringFolder(folders, uri, Editor, k);
    SameLengthPrefix(EditorOf(folders, j), EditorOf(folders, k), uri);
    assert j == k;
  }

  lemma {:induction false} FindMostSpecific(folders: seq<Folder>, uri: string) returns (k: nat)
    requires InFolder(folders, uri)
    ensures k < |folders| && MostSpecific(folders, k, uri)
  {
    hide EditorOf, AtOrUnder;
    k :| k < |folders| && AtOrUnder(EditorOf(folders, k), uri);
    var i := 0;
    while i < |folders|
      invariant 0 <= i <= |folders| && k < |folders| && AtOrUnder(EditorOf(folders, k), uri)
      invariant forall j :: 0 <= j < i && AtOrUnder(EditorOf(folders, j), uri) ==>
                  |EditorOf(folders, j)| <= |EditorOf(folders, k)|
    {
      if AtOrUnder(EditorOf(folders, i), uri) && |EditorOf(folders, i)| > |EditorOf(folders, k)| {
        k := i;
      }
      i := i + 1;
    }
  }

  /** The same folders, in any order. */
  ghost predicate SameFolders(a: seq<Folder>, b: seq<Folder>)
  {
    |a| == |b| && (forall f :: f in a <==> f in b)
  }

  lemma {:induction false} ReorderingIsSame(folders: seq<Folder>, shuffled: seq<Folder>)
    requires multiset(folders) == multiset(shuffled)
    ensures SameFolders(folders, shuffled)
  {
    assert |multiset(folders)| == |folders| && |multiset(shuffled)| == |shuffled|;
    assert forall f :: f in folders <==> f in multiset(folders);
    assert forall f :: f in shuffled <==> f in multiset(shuffled);
  }

  lemma {:induction false} SameElsewhere(a: seq<Folder>, b: seq<Folder>, i: nat) returns (j: nat)
    requires SameFolders(a, b) && i < |a|
    ensures j < |b| && a[i] == b[j] && EditorOf(a, i) == EditorOf(b, j) && MountOf(a, i) == MountOf(b, j)
  {
    assert a[i] in b;
    j :| 0 <= j < |b| && b[j] == a[i];
  }

  lemma {:induction false} MostSpecificElsewhere(a: seq<Folder>, b: seq<Folder>, k: nat, j: nat, uri: string)
    requires SameFolders(a, b) && MostSpecific(a, k, uri) && j < |b| && b[j] == a[k]
    ensures MostSpecific(b, j, uri)
  {
    hide AtOrUnder;
    forall i | 0 <= i < |b| && AtOrUnder(EditorOf(b, i), uri)
      ensures |EditorOf(b, i)| <= |EditorOf(b, j)|
    {
      var h := SameElsewhere(b, a, i);
    }
  }

  lemma {:induction false} Elsewhere(s: seq<Folder>, k: nat)
    requires k < |s|
    ensures multiset(s) == multiset(s[..k] + s[k + 1..]) + multiset{s[k]}
  {
    assert s == s[..k] + [s[k]] + s[k + 1..];
  }

  lemma {:induction false} TwiceInOne(s: seq<Folder>, i: nat, j: nat)
    requires i < j < |s| && s[i] == s[j]
    ensures multiset(s)[s[i]] >= 2
  {
    Elsewhere(s, j);
    assert (s[..j] + s[j + 1..])[i] == s[i];
    assert s[i] in multiset(s[..j] + s[j + 1..]);
  }

  /** What a reordering holds twice, the original holds twice. */
  lemma {:induction false} TwiceInOther(s: seq<Folder>, f: Folder) returns (i: nat, j: nat)
    requires multiset(s)[f] >= 2
    ensures i < |s| && j < |s| && i != j && s[i] == f && s[j] == f
  {
    assert f in multiset(s);
    i :| 0 <= i < |s| && s[i] == f;
    Elsewhere(s, i);
    var others := s[..i] + s[i + 1..];
    assert f in multiset(others);
    var k :| 0 <= k < |others| && others[k] == f;
    j := if k < i then k else k + 1;
  }

  lemma {:induction false} DistinctElsewhere(folders: seq<Folder>, shuffled: seq<Folder>)
    requires multiset(folders) == multiset(shuffled) && DistinctEditors(folders)
    ensures DistinctEditors(shuffled)
  {
    hide EditorOf;
    ReorderingIsSame(folders, shuffled);
    forall i, j | 0 <= i < j < |shuffled|
      ensures EditorOf(shuffled, i) != EditorOf(shuffled, j)
    {
      var a, b;
      if shuffled[i] == shuffled[j] {
        TwiceInOne(shuffled, i, j);
        a, b := TwiceInOther(folders, shuffled[i]);
        SameEditor(folders, a, shuffled, i);
        SameEditor(folders, b, shuffled, j);
      } else {
        a := SameElsewhere(shuffled, folders, i);
        b := SameElsewhere(shuffled, folders, j);
      }
    }
  }

  lemma {:induction false} SameEditor(a: seq<Folder>, i: nat, b: seq<Folder>, j: nat)
    requires i < |a| && j < |b| && a[i] == b[j]
    ensures EditorOf(a, i) == EditorOf(b, j)
  {
  }

  /** Reordering the workspace folders never changes a translation, in either direction. */
  lemma {:induction false} OrderIrrelevant(folders: seq<Folder>, shuffled: seq<Folder>, uri: string)
    requires multiset(folders) == multiset(shuffled)
    ensures DistinctEditors(folders) ==> ToGuest(folders, uri) == ToGuest(shuffled, uri)
    ensures DistinctNames(folders) ==> ToEditor(folders, uri) == ToEditor(shuffled, uri)
  {
    if DistinctEditors(folders) {
      OrderIrrelevantOut(folders, shuffled, uri);
    }
    if DistinctNames(folders) {
      OrderIrrelevantBack(folders, shuffled, uri);
    }
  }

  /** Reordering keeps names apart. */
  lemma {:induction false} NamesElsewhere(folders: seq<Folder>, shuffled: seq<Folder>)
    requires multiset(folders) == multiset(shuffled) && DistinctNames(folders)
    ensures DistinctNames(shuffled)
  {
    ReorderingIsSame(folders, shuffled);
    forall i, j | 0 <= i < j < |shuffled|
      ensures shuffled[i].name != shuffled[j].name
    {
      var a, b;
      if shuffled[i] == shuffled[j] {
        TwiceInOne(shuffled, i, j);
        a, b := TwiceInOther(folders, shuffled[i]);
      } else {
        a := SameElsewhere(shuffled, folders, i);
        b := SameElsewhere(shuffled, folders, j);
      }
    }
    forall i | 0 <= i < |shuffled| && |shuffled| > 1
      ensures '/' !in shuffled[i].name
    {
      var a := SameElsewhere(shuffled, folders, i);
    }
  }

  lemma {:induction false} OrderIrrelevantBack(folders: seq<Folder>, shuffled: seq<Folder>, uri: string)
    requires multiset(folders) == multiset(shuffled) && DistinctNames(folders)
    ensures ToEditor(folders, uri) == ToEditor(shuffled, uri)
  {
    ReorderingIsSame(folders, shuffled);
    NamesElsewhere(folders, shuffled);
    Outside(folders, uri);
    Outside(shuffled, uri);
    hide AtOrUnder, EditorOf, MountOf, ToEditor, DistinctNames;
    if InMount(folders, uri) {
      var k :| 0 <= k < |folders| && AtOrUnder(MountOf(folders, k), uri);
      var j := SameElsewhere(folders, shuffled, k);
      SplitAt(MountOf(folders, k), uri);
      var rest := uri[|MountOf(folders, k)|..];
      BackThroughOwnMount(folders, k, rest);
      BackThroughOwnMount(shuffled, j, rest);
    } else if InMount(shuffled, uri) {
      var j :| 0 <= j < |shuffled| && AtOrUnder(MountOf(shuffled, j), uri);
      var k := SameElsewhere(shuffled, folders, j);
    }
  }

  lemma {:induction false} OrderIrrelevantOut(folders: seq<Folder>, shuffled: seq<Folder>, uri: string)
    requires multiset(folders) == multiset(shuffled) && DistinctEditors(folders)
    ensures ToGuest(folders, uri) == ToGuest(shuffled, uri)
  {
    hide AtOrUnder, EditorOf, MountOf, ToGuest, MostSpecific;
    ReorderingIsSame(folders, shuffled);
    DistinctElsewhere(folders, shuffled);
    Outside(folders, uri);
    Outside(shuffled, uri);
    if InFolder(folders, uri) {
      var k := FindMostSpecific(folders, uri);
      var j := SameElsewhere(folders, shuffled, k);
      MostSpecificElsewhere(folders, shuffled, k, j, uri);
      MostSpecificWins(folders, k, uri);
      MostSpecificWins(shuffled, j, uri);
    } else if InFolder(shuffled, uri) {
      var j :| 0 <= j < |shuffled| && AtOrUnder(EditorOf(shuffled, j), uri);
      var k := SameElsewhere(shuffled, folders, j);
    }
  }

  /** In and back is the identity exactly where no nested folder captures the translated URI. */
  lemma {:induction false} GuestRoundTrip(folders: seq<Folder>, k: nat, rest: string)
    requires DistinctNames(folders) && DistinctEditors(folders)
    requires k < |folders| && (rest == "" || rest[0] == '/')
    ensures var g := MountOf(folders, k) + rest;
            ToGuest(folders, ToEditor(folders, g)) == g <==>
              MostSpecific(folders, k, EditorOf(folders, k) + rest)
  {
    var g, u := MountOf(folders, k) + rest, EditorOf(folders, k) + rest;
    BackThroughOwnMount(folders, k, rest);
    Under(EditorOf(folders, k), rest);
    Under(MountOf(folders, k), rest);
    DropPrefix(EditorOf(folders, k), rest);
    if MostSpecific(folders, k, u) {
      MostSpecificWins(folders, k, u);
    } else {
      var j := FindMostSpecific(folders, u);
      MostSpecificWins(folders, j, u);
      SplitAt(EditorOf(folders, j), u);
      Under(MountOf(folders, j), u[|EditorOf(folders, j)|..]);
      if ToGuest(folders, u) == g {
        OneMount(folders, j, k, g);
      }
    }
  }

  /** With no folder inside another, every URI under a mount survives the trip in and back. */
  lemma {:induction false} UnnestedGuestRoundTrip(folders: seq<Folder>, k: nat, rest: string)
    requires DistinctNames(folders) && k < |folders| && (rest == "" || rest[0] == '/')
    requires forall i, j :: 0 <= i < |folders| && 0 <= j < |folders| && i != j ==>
               !AtOrUnder(EditorOf(folders, i), EditorOf(folders, j))
    ensures ToGuest(folders, ToEditor(folders, MountOf(folders, k) + rest)) == MountOf(folders, k) + rest
  {
    var e, u := EditorOf(folders, k), EditorOf(folders, k) + rest;
    Under(e, rest);
    forall j | 0 <= j < |folders| && AtOrUnder(EditorOf(folders, j), u)
      ensures |EditorOf(folders, j)| <= |e|
    {
      if j != k && |EditorOf(folders, j)| > |e| {
        ShorterIsOutside(e, EditorOf(folders, j), u);
      }
    }
    assert DistinctEditors(folders);
    GuestRoundTrip(folders, k, rest);
  }

  lemma {:induction false} ShorterIsOutside(a: string, b: string, value: string)
    requires AtOrUnder(a, value) && AtOrUnder(b, value) && |a| < |b|
    ensures AtOrUnder(a, b)
  {
    SplitAt(a, value);
    SplitAt(b, value);
    assert b == value[..|b|] && a == value[..|a|];
    assert value[|a|] == '/';
    assert a + "/" == b[..|a| + 1];
  }

  // The mounts, spelled out.

  /** A folder URI means the same with and without a trailing slash. */
  lemma {:induction false} TrailingSlashIsIgnored(folders: seq<Folder>, k: nat, u: string)
    requires k < |folders| && (u == "" || u[|u| - 1] != '/')
    ensures folders[k].uri == u || folders[k].uri == u + "/" ==> EditorOf(folders, k) == u
  {
    assert (u + "/")[..|u|] == u;
  }

  /** A single folder is mounted at `/workspace`, several each under its name. */
  lemma {:induction false} MountIs(folders: seq<Folder>, k: nat)
    requires k < |folders|
    ensures |folders| == 1 ==> MountOf(folders, k) == "file://" + "/workspace"
    ensures |folders| > 1 && (forall c :: c in folders[k].name ==> IsUnreserved(c)) ==>
              MountOf(folders, k) == "file://" + ("/workspaces/" + folders[k].name)
  {
    var name := folders[k].name;
    SpelledUnreserved();
    hide Encode, IsUnreserved;
    UnreservedIsItself("/workspace");
    if forall c :: c in name ==> IsUnreserved(c) {
      UnreservedIsItself("/workspaces/" + name);
    }
  }

  lemma {:induction false} SpelledUnreserved()
    ensures forall c :: c in "/workspaces/" ==> IsUnreserved(c)
    ensures forall c :: c in "/workspace" ==> IsUnreserved(c)
  {
    UnreservedAreKept('/');
    UnreservedAreKept('w');
    UnreservedAreKept('o');
    UnreservedAreKept('r');
    UnreservedAreKept('k');
    UnreservedAreKept('s');
    UnreservedAreKept('p');
    UnreservedAreKept('a');
    UnreservedAreKept('c');
    UnreservedAreKept('e');
    hide IsUnreserved;
  }

  /** With one folder, `rest` below it is `rest` below `/workspace`, and back. */
  lemma {:induction false} OneFolderIsWorkspace(u: string, name: string, slash: bool, rest: string)
    requires (u == "" || u[|u| - 1] != '/') && (rest == "" || rest[0] == '/')
    ensures var folders := [Folder(if slash then u + "/" else u, name)];
      && ToGuest(folders, u + rest) == "file://" + "/workspace" + rest
      && ToEditor(folders, "file://" + "/workspace" + rest) == u + rest
  {
    var folders := [Folder(if slash then u + "/" else u, name)];
    TrailingSlashIsIgnored(folders, 0, u);
    MountIs(folders, 0);
    Under(u, rest);
    MostSpecificWins(folders, 0, u + rest);
    BackThroughOwnMount(folders, 0, rest);
  }

  // Inputs that do not survive.

  /** A URI outside the workspace that names the mount comes back as a URI of the folder. */
  lemma {:induction false} MountNameDoesNotReturn()
    ensures var folders := [Folder("vscode-remote://wsl/home/p", "p")];
            var uri := MountOf(folders, 0) + "/x";
            ToEditor(folders, ToGuest(folders, uri)) != uri
  {
    var folders := [Folder("vscode-remote://wsl/home/p", "p")];
    var uri := MountOf(folders, 0) + "/x";
    assert EditorOf(folders, 0)[0] == 'v' && uri[0] == 'f';
    assert "/x"[0] == '/';
    Under(MountOf(folders, 0), "/x");
    assert !AtOrUnder(EditorOf(folders, 0), uri);
    EditorRoundTrip(folders, uri);
  }

  /** A guest URI that spells out the nested folder through the outer mount comes back through the inner mount. */
  lemma {:induction false} NestedFolderCaptures()
    ensures var folders := [Folder("file:///a", "a"), Folder("file:///a/b", "b")];
            var uri := MountOf(folders, 0) + "/b/x";
            ToGuest(folders, ToEditor(folders, uri)) != uri
  {
    var folders := [Folder("file:///a", "a"), Folder("file:///a/b", "b")];
    assert EditorOf(folders, 0) == "file:///a" && EditorOf(folders, 1) == "file:///a/b";
    assert "/b/x"[0] == '/' && "/x"[0] == '/';
    Under("file:///a/b", "/x");
    assert "file:///a" + "/b/x" == "file:///a/b" + "/x";
    assert !MostSpecific(folders, 0, EditorOf(folders, 0) + "/b/x");
    GuestRoundTrip(folders, 0, "/b/x");
  }
}
