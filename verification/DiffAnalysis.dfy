/** Diagnostics suppressed in diff editors: a view updated only where a key flipped. */
module DiffAnalysis {
  import opened Options

  type Uri = string
  type Diagnostic = string

  /** For which resources suppression is enabled. */
  type Setting = Uri -> bool

  datatype Tab = TextTab(uri: Uri) | DiffTab(original: Uri, modified: Uri) | OtherTab

  type Groups = seq<seq<Tab>>

  predicate InNormalTab(groups: Groups, u: Uri)
  {
    exists g, i :: 0 <= g < |groups| && 0 <= i < |groups[g]| && groups[g][i] == TextTab(u)
  }

  predicate OnDiffSide(tab: Tab, u: Uri)
  {
    tab.DiffTab? && (tab.original == u || tab.modified == u)
  }

  predicate InDiffTab(groups: Groups, u: Uri)
  {
    exists g, i :: 0 <= g < |groups| && 0 <= i < |groups[g]| && OnDiffSide(groups[g][i], u)
  }

  /** Shown on a diff side and in no normal editor tab. */
  predicate DiffOnly(groups: Groups, u: Uri)
  {
    InDiffTab(groups, u) && !InNormalTab(groups, u)
  }

  /** What the client should see of a URI's real diagnostics. */
  function Display(u: Uri, diagnostics: seq<Diagnostic>, groups: Groups, enabled: Setting): (r: seq<Diagnostic>)
  {
    if DiffOnly(groups, u) && enabled(u) then [] else diagnostics
  }

  /** Both sides of a diff tab are emptied, unless some normal tab shows the document or the setting is off for it;
      without a diff tab that names it, a document is left alone. */
  lemma {:induction false} TabsDecide(
    groups: Groups, g: nat, i: nat, u: Uri, diagnostics: seq<Diagnostic>, enabled: Setting)
    requires g < |groups| && i < |groups[g]|
    ensures groups[g][i] == TextTab(u) || !enabled(u) ==> Display(u, diagnostics, groups, enabled) == diagnostics
    ensures && groups[g][i].DiffTab? && u in {groups[g][i].original, groups[g][i].modified} && enabled(u)
            && (forall h, j :: 0 <= h < |groups| && 0 <= j < |groups[h]| ==> groups[h][j] != TextTab(u)) ==>
              Display(u, diagnostics, groups, enabled) == []
    ensures (forall h, j :: 0 <= h < |groups| && 0 <= j < |groups[h]| && groups[h][j].DiffTab? ==>
                              u !in {groups[h][j].original, groups[h][j].modified}) ==>
              Display(u, diagnostics, groups, enabled) == diagnostics
  {
    if groups[g][i].DiffTab? && u in {groups[g][i].original, groups[g][i].modified} {
      assert OnDiffSide(groups[g][i], u);
    }
  }

  datatype Event =
    | Publish(uri: Uri, diagnostics: seq<Diagnostic>)
    | TabsChange(groups: Groups)
    | SettingChange(enabled: Setting)
    | Close(uri: Uri)

  // What the events amount to, looking at nothing but the events.

  ghost function CurrentGroups(groups: Groups, events: seq<Event>): (r: Groups)
  {
    if events == [] then groups
    else
      var last := events[|events| - 1];
      if last.TabsChange? then last.groups else CurrentGroups(groups, events[..|events| - 1])
  }

  ghost function CurrentSetting(enabled: Setting, events: seq<Event>): (r: Setting)
  {
    if events == [] then enabled
    else
      var last := events[|events| - 1];
      if last.SettingChange? then last.enabled else CurrentSetting(enabled, events[..|events| - 1])
  }

  /** The diagnostics last published for a URI whose document has not been closed since. */
  ghost function Real(events: seq<Event>, u: Uri): (r: Option<seq<Diagnostic>>)
  {
    if events == [] then None
    else
      var last := events[|events| - 1];
      if last.Publish? && last.uri == u then Some(last.diagnostics)
      else if last.Close? && last.uri == u then None
      else Real(events[..|events| - 1], u)
  }

  // The incremental view.

  /** `displayDiagnostics`: the real set, or nothing for a suppressed diff-only URI. */
  function DisplayDiagnostics(u: Uri, diagnostics: seq<Diagnostic>, diffOnly: set<Uri>, enabled: Setting)
    : (r: seq<Diagnostic>)
  {
    if |diagnostics| == 0 || u !in diffOnly then diagnostics
    else if enabled(u) then [] else diagnostics
  }

  /** One call of the client's sink. */
  datatype Send = Send(uri: Uri, diagnostics: seq<Diagnostic>)

  /** The suppressor's fields, the setting as configuration reads it, and every send made so far. */
  datatype State = State(
    latest: map<Uri, seq<Diagnostic>>, hasSink: bool, diffOnly: set<Uri>, enabled: Setting, sent: seq<Send>)

  /** What the client last received for a URI. */
  ghost function Shown(sent: seq<Send>, u: Uri): (r: Option<seq<Diagnostic>>)
  {
    if sent == [] then None
    else if sent[|sent| - 1].uri == u then Some(sent[|sent| - 1].diagnostics)
    else Shown(sent[..|sent| - 1], u)
  }

  /** How often something was sent for a URI. */
  ghost function Count(sent: seq<Send>, u: Uri): (n: nat)
  {
    if sent == [] then 0
    else Count(sent[..|sent| - 1], u) + if sent[|sent| - 1].uri == u then 1 else 0
  }

  ghost function Sides(tab: Tab): (r: set<Uri>)
  {
    if tab.DiffTab? then {tab.original, tab.modified} else {}
  }

  ghost function DiffOnlySet(groups: Groups): (r: set<Uri>)
    ensures forall u :: u in r <==> DiffOnly(groups, u)
  {
    set g, i, u | 0 <= g < |groups| && 0 <= i < |groups[g]| && u in Sides(groups[g][i]) && !InNormalTab(groups, u) :: u
  }

  ghost function Init(groups: Groups, setting: Setting): (s: State)
  {
    State(map[], false, DiffOnlySet(groups), setting, [])
  }

  ghost function SendFor(s: State, u: Uri): (send: Send)
    requires u in s.latest
  {
    Send(u, DisplayDiagnostics(u, s.latest[u], s.diffOnly, s.enabled))
  }

  /** The key is sent again: it is among those given and remembered, and there is a sink. */
  ghost predicate Due(s: State, keys: set<Uri>, u: Uri)
  {
    u in keys && u in s.latest && s.hasSink
  }

  /** One send for each key that is due, and no other, in any order. */
  ghost predicate IsBatch(s: State, keys: set<Uri>, batch: seq<Send>)
  {
    && (forall i :: 0 <= i < |batch| ==> Due(s, keys, batch[i].uri) && batch[i] == SendFor(s, batch[i].uri))
    && (forall u :: Count(batch, u) == if Due(s, keys, u) then 1 else 0)
  }

  ghost predicate Resends(s: State, keys: set<Uri>, r: State)
  {
    exists batch :: IsBatch(s, keys, batch) && r == s.(sent := s.sent + batch)
  }

  ghost function Flipped(a: set<Uri>, b: set<Uri>): (r: set<Uri>)
  {
    (a - b) + (b - a)
  }

  /** What an event may make of a state: the order in which keys are sent again is the iteration's. */
  ghost predicate Next(s: State, e: Event, r: State)
  {
    match e
    case Publish(u, diagnostics) =>
      var t := s.(hasSink := true, latest := s.latest[u := diagnostics]);
      r == t.(sent := s.sent + [SendFor(t, u)])
    case TabsChange(groups) =>
      Resends(s.(diffOnly := DiffOnlySet(groups)), Flipped(s.diffOnly, DiffOnlySet(groups)), r)
    case SettingChange(enabled) => Resends(s.(enabled := enabled), s.latest.Keys, r)
    case Close(u) => r == s.(latest := s.latest - {u})
  }

  /** The events may lead from the start to the state. */
  ghost predicate Leads(groups: Groups, setting: Setting, events: seq<Event>, s: State)
    decreases |events|, 0
  {
    if events == [] then s == Init(groups, setting)
    else LeadsOn(groups, setting, events[..|events| - 1], events[|events| - 1], s)
  }

  ghost predicate LeadsOn(groups: Groups, setting: Setting, events: seq<Event>, e: Event, s: State)
    decreases |events|, 1
  {
    exists before :: Leads(groups, setting, events, before) && Next(before, e, s)
  }

  // Sends and what they show.

  lemma {:induction false} CountConcat(a: seq<Send>, b: seq<Send>, u: Uri)
    ensures Count(a + b, u) == Count(a, u) + Count(b, u)
    ensures Shown(a + b, u) == if Count(b, u) == 0 then Shown(a, u) else Shown(b, u)
  {
    if b == [] {
      assert a + b == a;
    } else {
      CountConcat(a, b[..|b| - 1], u);
      assert (a + b)[..|a + b| - 1] == a + b[..|b| - 1];
    }
  }

  lemma {:induction false} ShownIsSent(sent: seq<Send>, u: Uri)
    ensures Count(sent, u) > 0 <==> exists i :: 0 <= i < |sent| && sent[i].uri == u
    ensures Count(sent, u) == 0 <==> Shown(sent, u).None?
    ensures Shown(sent, u).Some? ==> Send(u, Shown(sent, u).value) in sent
  {
    if sent == [] {
    } else {
      var init, last := sent[..|sent| - 1], sent[|sent| - 1];
      ShownIsSent(init, u);
      assert sent == init + [last];
    }
  }

  /** After a batch, a URI that was due shows what it calls for, and any other what it showed before. */
  lemma {:induction false} BatchShows(s: State, keys: set<Uri>, batch: seq<Send>, u: Uri)
    requires IsBatch(s, keys, batch)
    ensures Shown(s.sent + batch, u) ==
              if Due(s, keys, u) then Some(SendFor(s, u).diagnostics) else Shown(s.sent, u)
  {
    CountConcat(s.sent, batch, u);
    ShownIsSent(batch, u);
  }

  // The view agrees with a recomputation.

  /** The URI is remembered exactly when it has real diagnostics, and shows what they call for. */
  ghost predicate Agrees(s: State, groups: Groups, u: Uri, known: Option<seq<Diagnostic>>)
  {
    && (u in s.diffOnly <==> DiffOnly(groups, u))
    && (u in s.latest <==> known.Some?)
    && (known.Some? ==>
          && s.hasSink && s.latest[u] == known.value
          && Shown(s.sent, u) == Some(Display(u, known.value, groups, s.enabled)))
  }

  ghost predicate StateAgrees(groups: Groups, setting: Setting, events: seq<Event>, s: State, u: Uri)
  {
    s.enabled == CurrentSetting(setting, events) && Agrees(s, CurrentGroups(groups, events), u, Real(events, u))
  }

  lemma {:induction false} PublishAgrees(
    s: State, groups: Groups, u: Uri, known: Option<seq<Diagnostic>>, e: Event, r: State)
    requires Agrees(s, groups, u, known) && e.Publish? && Next(s, e, r)
    ensures Agrees(r, groups, u, if e.uri == u then Some(e.diagnostics) else known) && r.enabled == s.enabled
  {
    hide DiffOnly;
    assert r.sent[..|r.sent| - 1] == s.sent;
  }

  lemma {:induction false} TabsAgree(
    s: State, groups: Groups, u: Uri, known: Option<seq<Diagnostic>>, e: Event, r: State)
    requires Agrees(s, groups, u, known) && e.TabsChange? && Next(s, e, r)
    ensures Agrees(r, e.groups, u, known) && r.enabled == s.enabled
  {
    var t, keys := s.(diffOnly := DiffOnlySet(e.groups)), Flipped(s.diffOnly, DiffOnlySet(e.groups));
    assert u in DiffOnlySet(e.groups) <==> DiffOnly(e.groups, u);
    hide DiffOnly, DiffOnlySet;
    var batch :| IsBatch(t, keys, batch) && r == t.(sent := t.sent + batch);
    BatchShows(t, keys, batch, u);
    hide IsBatch, Shown;
  }

  lemma {:induction false} SettingAgrees(
    s: State, groups: Groups, u: Uri, known: Option<seq<Diagnostic>>, e: Event, r: State)
    requires Agrees(s, groups, u, known) && e.SettingChange? && Next(s, e, r)
    ensures Agrees(r, groups, u, known) && r.enabled == e.enabled
  {
    hide DiffOnly;
    var t := s.(enabled := e.enabled);
    var batch :| IsBatch(t, s.latest.Keys, batch) && r == t.(sent := t.sent + batch);
    BatchShows(t, s.latest.Keys, batch, u);
    hide IsBatch, Shown;
  }

  lemma {:induction false} CloseAgrees(
    s: State, groups: Groups, u: Uri, known: Option<seq<Diagnostic>>, e: Event, r: State)
    requires Agrees(s, groups, u, known) && e.Close? && Next(s, e, r)
    ensures Agrees(r, groups, u, if e.uri == u then None else known) && r.enabled == s.enabled
  {
    hide DiffOnly;
  }

  lemma {:induction false} EveryStateAgrees(groups: Groups, setting: Setting, events: seq<Event>, s: State, u: Uri)
    requires Leads(groups, setting, events, s)
    ensures StateAgrees(groups, setting, events, s, u)
  {
    if events == [] {
      assert u in DiffOnlySet(groups) <==> DiffOnly(groups, u);
    } else {
      var before, e := events[..|events| - 1], events[|events| - 1];
      var b :| Leads(groups, setting, before, b) && Next(b, e, s);
      EveryStateAgrees(groups, setting, before, b, u);
      var now, known := CurrentGroups(groups, before), Real(before, u);
      hide Agrees, DiffOnly, DiffOnlySet, Next, Leads;
      match e
      case Publish(_, _) => PublishAgrees(b, now, u, known, e, s);
      case TabsChange(_) => TabsAgree(b, now, u, known, e, s);
      case SettingChange(_) => SettingAgrees(b, now, u, known, e, s);
      case Close(_) => CloseAgrees(b, now, u, known, e, s);
    }
  }

  /** After any events, what was last sent for a remembered URI is what recomputing everything from the events
      gives; open in a normal tab, it is the URI's real diagnostics. */
  lemma {:induction false} ViewIsRecomputation(
    groups: Groups, setting: Setting, events: seq<Event>, s: State, u: Uri)
    requires Leads(groups, setting, events, s) && Real(events, u).Some?
    ensures var tabs, known := CurrentGroups(groups, events), Real(events, u).value;
      && Shown(s.sent, u) == Some(Display(u, known, tabs, CurrentSetting(setting, events)))
      && (InNormalTab(tabs, u) ==> Shown(s.sent, u) == Some(known))
  {
    EveryStateAgrees(groups, setting, events, s, u);
  }

  // How much is sent.

  /** What an event adds to the log. */
  ghost function Added(s: State, r: State): (batch: seq<Send>)
    requires s.sent <= r.sent
  {
    r.sent[|s.sent|..]
  }

  /** After any events, a change of tabs makes exactly one send for each remembered URI whose diff-only status
      flipped, the one that its new status calls for, and no other send. */
  lemma {:induction false} OnlyFlippedAreSent(
    groups: Groups, setting: Setting, events: seq<Event>, s: State, tabs: Groups, r: State, u: Uri)
    requires Leads(groups, setting, events, s) && Next(s, TabsChange(tabs), r)
    ensures s.sent <= r.sent
    ensures var flipped := DiffOnly(CurrentGroups(groups, events), u) <==> !DiffOnly(tabs, u);
      Count(Added(s, r), u) == if flipped && Real(events, u).Some? then 1 else 0
    ensures forall send :: send in Added(s, r) && send.uri == u && Real(events, u).Some? ==>
              send.diagnostics == Display(u, Real(events, u).value, tabs, CurrentSetting(setting, events))
  {
    EveryStateAgrees(groups, setting, events, s, u);
    assert u in DiffOnlySet(tabs) <==> DiffOnly(tabs, u);
    hide DiffOnly, DiffOnlySet, Leads;
    var t, keys := s.(diffOnly := DiffOnlySet(tabs)), Flipped(s.diffOnly, DiffOnlySet(tabs));
    var batch :| IsBatch(t, keys, batch) && r == t.(sent := t.sent + batch);
    assert Added(s, r) == batch;
  }

  /** A change of the setting makes exactly one send for each remembered URI, and no other. */
  lemma {:induction false} SettingSendsEachOnce(
    groups: Groups, setting: Setting, events: seq<Event>, s: State, enabled: Setting, r: State, u: Uri)
    requires Leads(groups, setting, events, s) && Next(s, SettingChange(enabled), r)
    ensures s.sent <= r.sent && Count(Added(s, r), u) == if Real(events, u).Some? then 1 else 0
  {
    EveryStateAgrees(groups, setting, events, s, u);
    hide DiffOnly, Leads;
    var t := s.(enabled := enabled);
    var batch :| IsBatch(t, s.latest.Keys, batch) && r == t.(sent := t.sent + batch);
    assert Added(s, r) == batch;
  }

  /** Every event can be taken, whatever came before it. */
  lemma {:induction false} AlwaysGoesOn(s: State, e: Event) returns (r: State)
    ensures Next(s, e, r)
  {
    match e
    case Publish(u, diagnostics) =>
      var t := s.(hasSink := true, latest := s.latest[u := diagnostics]);
      r := t.(sent := s.sent + [SendFor(t, u)]);
    case TabsChange(groups) =>
      var t := s.(diffOnly := DiffOnlySet(groups));
      var batch := SomeBatch(t, Flipped(s.diffOnly, DiffOnlySet(groups)));
      r := t.(sent := t.sent + batch);
    case SettingChange(enabled) =>
      var t := s.(enabled := enabled);
      var batch := SomeBatch(t, s.latest.Keys);
      r := t.(sent := t.sent + batch);
    case Close(u) => r := s.(latest := s.latest - {u});
  }

  lemma {:induction false} SomeBatch(s: State, keys: set<Uri>) returns (batch: seq<Send>)
    ensures IsBatch(s, keys, batch)
    decreases |keys|
  {
    if keys == {} {
      batch := [];
    } else {
      var key :| key in keys;
      var rest := SomeBatch(s, keys - {key});
      BatchGrows(s, keys - {key}, rest, key);
      assert keys - {key} + {key} == keys;
      batch := if Due(s, keys, key) then rest + [SendFor(s, key)] else rest;
    }
  }

  lemma {:induction false} BatchGrows(s: State, keys: set<Uri>, batch: seq<Send>, key: Uri)
    requires IsBatch(s, keys, batch) && key !in keys
    ensures var more := keys + {key};
      IsBatch(s, more, if Due(s, more, key) then batch + [SendFor(s, key)] else batch)
  {
    var more := keys + {key};
    if Due(s, more, key) {
      var after := batch + [SendFor(s, key)];
      assert after[..|batch|] == batch;
      assert forall u :: Count(after, u) == Count(batch, u) + if u == key then 1 else 0;
    }
  }

  // The suppressor as it runs.

  /** The set builders: both tab kinds, then the difference. */
  method CollectTabUriSets(groups: Groups) returns (normal: set<Uri>, diff: set<Uri>)
    ensures forall u :: u in normal <==> InNormalTab(groups, u)
    ensures forall u :: u in diff <==> InDiffTab(groups, u)
  {
    normal, diff := {}, {};
    var g := 0;
    while g < |groups|
      invariant 0 <= g <= |groups|
      invariant forall u :: u in normal <==>
                  exists h, i :: 0 <= h < g && 0 <= i < |groups[h]| && groups[h][i] == TextTab(u)
      invariant forall u :: u in diff <==>
                  exists h, i :: 0 <= h < g && 0 <= i < |groups[h]| && OnDiffSide(groups[h][i], u)
    {
      var tabs := groups[g];
      ghost var normalBefore, diffBefore := normal, diff;
      var k := 0;
      while k < |tabs|
        invariant 0 <= k <= |tabs|
        invariant forall u :: u in normal <==> u in normalBefore || exists i :: 0 <= i < k && tabs[i] == TextTab(u)
        invariant forall u :: u in diff <==> u in diffBefore || exists i :: 0 <= i < k && OnDiffSide(tabs[i], u)
      {
        var tab := tabs[k];
        if tab.TextTab? {
          normal := normal + {tab.uri};
        } else if tab.DiffTab? {
          diff := diff + {tab.original} + {tab.modified};
        }
        k := k + 1;
      }
      g := g + 1;
    }
  }

  method DiffOnlyUris(normal: set<Uri>, diff: set<Uri>) returns (out: set<Uri>)
    ensures forall u :: u in out <==> u in diff && u !in normal
  {
    out := {};
    var todo := diff;
    while todo != {}
      invariant todo <= diff
      invariant forall u :: u in out <==> u in diff && u !in todo && u !in normal
      decreases |todo|
    {
      var uri :| uri in todo;
      if uri !in normal {
        out := out + {uri};
      }
      todo := todo - {uri};
    }
  }

  method SymmetricDifference(a: set<Uri>, b: set<Uri>) returns (out: set<Uri>)
    ensures forall u :: u in out <==> (u in a <==> u !in b)
  {
    out := {};
    var todo := a;
    while todo != {}
      invariant todo <= a
      invariant forall u :: u in out <==> u in a && u !in todo && u !in b
      decreases |todo|
    {
      var x :| x in todo;
      if x !in b {
        out := out + {x};
      }
      todo := todo - {x};
    }
    todo := b;
    while todo != {}
      invariant todo <= b
      invariant forall u :: u in out <==> (u in a && u !in b) || (u in b && u !in todo && u !in a)
      decreases |todo|
    {
      var x :| x in todo;
      if x !in a {
        out := out + {x};
      }
      todo := todo - {x};
    }
  }

  class Suppressor {
    var latest: map<Uri, seq<Diagnostic>>
    var hasSink: bool
    var diffOnly: set<Uri>
    /** The setting, as configuration reads it. */
    var enabled: Setting
    /** The calls of the client's sink. */
    var sent: seq<Send>

    ghost function View(): (s: State)
      reads this
    {
      State(latest, hasSink, diffOnly, enabled, sent)
    }

    constructor (groups: Groups, setting: Setting)
      ensures View() == Init(groups, setting)
    {
      var normal, diff := CollectTabUriSets(groups);
      var only := DiffOnlyUris(normal, diff);
      latest, hasSink, diffOnly, enabled, sent := map[], false, only, setting, [];
      assert only == DiffOnlySet(groups);
    }

    method HandleDiagnostics(uri: Uri, diagnostics: seq<Diagnostic>)
      modifies this
      ensures Next(old(View()), Publish(uri, diagnostics), View())
    {
      hasSink := true;
      latest := latest[uri := diagnostics];
      sent := sent + [Send(uri, DisplayDiagnostics(uri, diagnostics, diffOnly, enabled))];
    }

    method CloseTextDocument(uri: Uri)
      modifies this
      ensures Next(old(View()), Close(uri), View())
    {
      latest := latest - {uri};
    }

    /** `onTabsChanged`: only the keys that flipped are sent again. */
    method TabsChanged(groups: Groups)
      modifies this
      ensures Next(old(View()), TabsChange(groups), View())
    {
      var previous := diffOnly;
      var normal, diff := CollectTabUriSets(groups);
      diffOnly := DiffOnlyUris(normal, diff);
      assert diffOnly == DiffOnlySet(groups);
      var flipped := SymmetricDifference(previous, diffOnly);
      assert flipped == Flipped(previous, diffOnly);
      Reapply(flipped);
    }

    /** `onDidChangeConfiguration` for the setting: every remembered key is sent again. */
    method SettingChanged(setting: Setting)
      modifies this
      ensures Next(old(View()), SettingChange(setting), View())
    {
      enabled := setting;
      Reapply(latest.Keys);
    }

    /** Sends the remembered keys among `keys` again, each once. */
    method Reapply(keys: set<Uri>)
      modifies this`sent
      ensures Resends(old(View()), keys, View())
    {
      hide IsBatch;
      ghost var s, batch: seq<Send> := View(), [];
      NothingSent(s);
      var todo := keys;
      assert keys - todo == {};
      while todo != {}
        invariant todo <= keys && IsBatch(s, keys - todo, batch) && sent == s.sent + batch
        decreases |todo|
      {
        var key :| key in todo;
        BatchGrows(s, keys - todo, batch, key);
        assert keys - (todo - {key}) == (keys - todo) + {key};
        todo := todo - {key};
        if key in latest && hasSink {
          sent := sent + [Send(key, DisplayDiagnostics(key, latest[key], diffOnly, enabled))];
          batch := batch + [SendFor(s, key)];
        }
      }
      assert keys - todo == keys;
    }
  }

  lemma {:induction false} NothingSent(s: State)
    ensures IsBatch(s, {}, [])
  {
  }
}
