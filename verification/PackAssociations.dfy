/** The reconciler that projects pack-claimed extensions into `files.associations`. */
module PackAssociations {
  import opened FileGlobs

  /** Glob to language id. */
  type Associations = map<string, string>

  /** One advertised row. */
  datatype Row = Row(extension: string, languageId: string)

  /** What workspace state may hold: nothing, the bare list an earlier build wrote, or the record. */
  datatype Stored = Absent | Legacy(globs: seq<string>) | Record(owned: Associations)

  /** A bare list is read as no remembered values. */
  function ReadOwned(stored: Stored): (owned: Associations)
  {
    if stored.Record? then stored.owned else map[]
  }

  /** The advertised globs: rows without an extension or a language are skipped, the last row for a glob wins. */
  function Wanted(rows: seq<Row>): (wanted: Associations)
  {
    if rows == [] then map[]
    else
      var last := rows[|rows| - 1];
      var before := Wanted(rows[..|rows| - 1]);
      if last.extension == "" || last.languageId == "" then before
      else before[GlobFor(last.extension) := last.languageId]
  }

  /** The row counts, and is for this glob. */
  ghost predicate Advertises(row: Row, g: string)
  {
    row.extension != "" && row.languageId != "" && GlobFor(row.extension) == g
  }

  /** A glob is wanted exactly when some complete row advertises it, as the last such row says. */
  lemma {:induction false} WantedIsLastRow(rows: seq<Row>, g: string, k: nat)
    ensures g in Wanted(rows) <==> exists i :: 0 <= i < |rows| && Advertises(rows[i], g)
    ensures k < |rows| && Advertises(rows[k], g) && (forall i :: k < i < |rows| ==> !Advertises(rows[i], g)) ==>
              g in Wanted(rows) && Wanted(rows)[g] == rows[k].languageId
  {
    hide GlobFor;
    if rows == [] {
    } else {
      var before, last := rows[..|rows| - 1], rows[|rows| - 1];
      WantedIsLastRow(before, g, k);
      assert forall i :: 0 <= i < |before| ==> before[i] == rows[i];
      if k < |before| {
        assert before[k] == rows[k];
      }
    }
  }

  /** An entry is ours while the configuration still says what we last wrote there. */
  predicate Ours(config: Associations, owned: Associations, glob: string)
  {
    glob in config && glob in owned && config[glob] == owned[glob]
  }

  /** The configuration says something for the glob that we did not write. */
  predicate Theirs(config: Associations, owned: Associations, glob: string)
  {
    glob in config && !Ours(config, owned, glob)
  }

  /** What a sync leaves in the configuration. */
  ghost function Reconciled(config: Associations, owned: Associations, wanted: Associations): (r: Associations)
  {
    map g | g in config.Keys + wanted.Keys && (Theirs(config, owned, g) || g in wanted) ::
      if Theirs(config, owned, g) then config[g] else wanted[g]
  }

  /** What a sync remembers. */
  ghost function Claimed(config: Associations, owned: Associations, wanted: Associations): (r: Associations)
  {
    map g | g in wanted && !Theirs(config, owned, g) :: wanted[g]
  }

  /** Both, glob by glob. */
  lemma {:induction false} SyncAt(config: Associations, owned: Associations, wanted: Associations, g: string)
    ensures var r := Reconciled(config, owned, wanted);
      && (g in r <==> Theirs(config, owned, g) || g in wanted)
      && (g in r ==> r[g] == if Theirs(config, owned, g) then config[g] else wanted[g])
    ensures var c := Claimed(config, owned, wanted);
      (g in c <==> g in wanted && !Theirs(config, owned, g)) && (g in c ==> c[g] == wanted[g])
  {
  }

  /** The persisted state: the workspace's own associations, and what the module wrote into them. */
  datatype State = State(config: Associations, stored: Stored)

  function Owned(s: State): (owned: Associations)
  {
    ReadOwned(s.stored)
  }

  /** An ownership record is rewritten only when its pairs changed or the configuration did. */
  ghost function AfterSync(s: State, wanted: Associations): (r: State)
  {
    var config := Reconciled(s.config, Owned(s), wanted);
    var claimed := Claimed(s.config, Owned(s), wanted);
    State(config, if config != s.config || claimed != Owned(s) then Record(claimed) else s.stored)
  }

  /** A sync writes nothing exactly when neither the entries nor the ownership would change; if it writes, the
      ownership is written as a record. */
  lemma {:induction false} QuietExactlyWhen(s: State, wanted: Associations)
    ensures var r, claimed := AfterSync(s, wanted), Claimed(s.config, Owned(s), wanted);
      && (r == s || r.stored == Record(claimed))
      && (Reconciled(s.config, Owned(s), wanted) == s.config && claimed == Owned(s) ==> r == s)
      && (r == s ==> r.config == Reconciled(s.config, Owned(s), wanted) && Owned(r) == claimed)
  {
    hide Reconciled, Claimed;
  }

  /** The bare list of an earlier build owns nothing, and neither does an empty store. */
  lemma {:induction false} OldStoresOwnNothing(config: Associations, globs: seq<string>)
    ensures Owned(State(config, Legacy(globs))) == map[] && Owned(State(config, Absent)) == map[]
  {
  }

  datatype Event = Sync(rows: seq<Row>) | UserSet(glob: string, languageId: string) | UserDelete(glob: string)

  ghost function Step(s: State, e: Event): (r: State)
  {
    match e
    case Sync(rows) => AfterSync(s, Wanted(rows))
    case UserSet(g, v) => s.(config := s.config[g := v])
    case UserDelete(g) => s.(config := s.config - {g})
  }

  ghost function Run(s: State, events: seq<Event>): (r: State)
  {
    if events == [] then s else Step(Run(s, events[..|events| - 1]), events[|events| - 1])
  }

  // One sync.

  /** A sync remembers exactly what it left in place for the advertised globs it may write. */
  lemma SyncRemembersItsWrites(s: State, wanted: Associations)
    ensures var r := AfterSync(s, wanted);
            && Owned(r) == Claimed(s.config, Owned(s), wanted)
            && (forall g :: g in Owned(r) ==> g in r.config && r.config[g] == Owned(r)[g] == wanted[g])
            && (forall g :: Ours(r.config, Owned(r), g) <==> g in Owned(r))
  {
  }

  /** An entry keeps its value through every possible sync exactly when it is not ours. */
  lemma {:induction false} UntouchableExactlyWhenTheirs(s: State, g: string)
    requires g in s.config
    ensures (forall wanted: Associations ::
               g in AfterSync(s, wanted).config && AfterSync(s, wanted).config[g] == s.config[g])
              <==> Theirs(s.config, Owned(s), g)
  {
    if Ours(s.config, Owned(s), g) {
      assert g !in AfterSync(s, map[]).config;
    }
  }

  /** Repeating a sync writes neither the configuration nor the ownership record. */
  lemma SyncIsIdempotent(s: State, wanted: Associations)
    ensures AfterSync(AfterSync(s, wanted), wanted) == AfterSync(s, wanted)
  {
    SyncRemembersItsWrites(s, wanted);
    var r := AfterSync(s, wanted);
    assert forall g :: g in wanted ==> (Theirs(r.config, Owned(r), g) <==> Theirs(s.config, Owned(s), g));
    assert Reconciled(r.config, Owned(r), wanted) == r.config;
    assert Claimed(r.config, Owned(r), wanted) == Owned(r);
  }

  // Whole runs.

  /** What the user last wrote for a glob over the events, or what stood there before. */
  ghost function LastUserValue(events: seq<Event>, g: string, before: string): (v: string)
  {
    if events == [] then before
    else
      var last := events[|events| - 1];
      if last.UserSet? && last.glob == g then last.languageId
      else LastUserValue(events[..|events| - 1], g, before)
  }

  /** Once a glob is in the configuration and unclaimed, it stays the user's, with the user's latest
      value, through any syncs and edits that do not delete it. */
  lemma {:induction false} UserKeepsGlob(s: State, events: seq<Event>, g: string)
    requires g in s.config && g !in Owned(s)
    requires UserDelete(g) !in events
    ensures var r := Run(s, events);
            && g in r.config && g !in Owned(r)
            && r.config[g] == LastUserValue(events, g, s.config[g])
  {
    if events == [] {
    } else {
      var init, last := events[..|events| - 1], events[|events| - 1];
      assert last in events;
      assert forall e :: e in init ==> e in events;
      UserKeepsGlob(s, init, g);
    }
  }

  /** A sync that meets an entry whose value is not the remembered one hands the glob back for good. */
  lemma {:induction false} EditHandsBackForGood(s: State, rows: seq<Row>, events: seq<Event>, g: string)
    requires Theirs(s.config, Owned(s), g) && UserDelete(g) !in events
    ensures var r := Run(Step(s, Sync(rows)), events);
            && g in r.config && g !in Owned(r)
            && r.config[g] == LastUserValue(events, g, s.config[g])
  {
    SyncRemembersItsWrites(s, Wanted(rows));
    UserKeepsGlob(Step(s, Sync(rows)), events, g);
  }

  /** Who wrote each configuration entry last. */
  datatype Author = User | Module

  ghost function Authors(s: State, events: seq<Event>): (a: map<string, Author>)
    ensures a.Keys == Run(s, events).config.Keys
  {
    if events == [] then map g | g in s.config :: User
    else
      var init, last := events[..|events| - 1], events[|events| - 1];
      var before, after := Run(s, init), Run(s, events);
      map g | g in after.config ::
        if last.UserSet? && last.glob == g then User
        else if g in before.config && before.config[g] == after.config[g] then Authors(s, init)[g]
        else Module
  }

  /** The module never loses track of an entry it wrote: it is remembered at its present value. */
  lemma {:induction false} ModuleEntriesAreOurs(s: State, events: seq<Event>, g: string)
    requires g in Authors(s, events) && Authors(s, events)[g] == Module
    ensures Ours(Run(s, events).config, Owned(Run(s, events)), g)
  {
    if events == [] {
    } else {
      var init, last := events[..|events| - 1], events[|events| - 1];
      var before, after := Run(s, init), Run(s, events);
      if g in before.config && before.config[g] == after.config[g] {
        ModuleEntriesAreOurs(s, init, g);
      }
      if last.Sync? {
        SyncRemembersItsWrites(before, Wanted(last.rows));
      }
    }
  }

  /** Nothing leaks: after a sync every entry of the module's is one that this sync advertised. */
  lemma {:induction false} NothingLeaks(s: State, events: seq<Event>, rows: seq<Row>, g: string)
    requires var all := events + [Sync(rows)]; g in Authors(s, all) && Authors(s, all)[g] == Module
    ensures g in Wanted(rows) && Run(s, events + [Sync(rows)]).config[g] == Wanted(rows)[g]
  {
    var all := events + [Sync(rows)];
    assert all[..|all| - 1] == events && all[|all| - 1] == Sync(rows);
    ModuleEntriesAreOurs(s, all, g);
    SyncRemembersItsWrites(Run(s, events), Wanted(rows));
  }

  /** A sync takes away or changes only what it remembers at the value it remembers. */
  lemma {:induction false} SyncTouchesOnlyItsOwn(s: State, events: seq<Event>, rows: seq<Row>, g: string)
    requires g in Run(s, events).config
    requires var after := Run(s, events + [Sync(rows)]).config;
             g !in after || after[g] != Run(s, events).config[g]
    ensures Ours(Run(s, events).config, Owned(Run(s, events)), g)
  {
    var all := events + [Sync(rows)];
    assert all[..|all| - 1] == events && all[|all| - 1] == Sync(rows);
  }

  // Runs without user edits.

  ghost predicate OnlySyncs(events: seq<Event>)
  {
    forall i :: 0 <= i < |events| ==> events[i].Sync?
  }

  /** The configuration with the advertised globs it did not already hold. */
  ghost function WithWanted(config: Associations, wanted: Associations): (r: Associations)
  {
    wanted + config
  }

  ghost predicate LeftBy(config: Associations, wanted: Associations, s: State)
  {
    s.config == WithWanted(config, wanted) && Owned(s) == wanted - config.Keys
  }

  lemma {:induction false} NextSyncLeaves(config: Associations, previous: Associations, s: State, wanted: Associations)
    requires LeftBy(config, previous, s)
    ensures LeftBy(config, wanted, AfterSync(s, wanted))
  {
    LeftByTheirs(config, previous, s);
    SyncRemembersItsWrites(s, wanted);
    assert forall g :: g in config ==> g in s.config && s.config[g] == config[g];
    forall g
      ensures var r, c := AfterSync(s, wanted).config, Claimed(s.config, Owned(s), wanted);
        && (g in r <==> g in config || g in wanted)
        && (g in r ==> r[g] == if g in config then config[g] else wanted[g])
        && (g in c <==> g in wanted && g !in config) && (g in c ==> c[g] == wanted[g])
    {
      SyncAt(s.config, Owned(s), wanted, g);
    }
    hide Theirs, Claimed, Reconciled, AfterSync, Owned;
    assert AfterSync(s, wanted).config == WithWanted(config, wanted);
  }

  lemma {:induction false} LeftByTheirs(config: Associations, wanted: Associations, s: State)
    requires LeftBy(config, wanted, s)
    ensures forall g :: Theirs(s.config, Owned(s), g) <==> g in config
  {
    forall g
      ensures Theirs(s.config, Owned(s), g) <==> g in config
    {
      assert g in s.config && g !in config ==> g in wanted;
    }
  }

  /** With no user edits, syncs from any configuration and nothing owned leave that configuration and the
      last advertised globs it does not hold, and own exactly those. */
  lemma {:induction false} SyncsLeaveLastWanted(config: Associations, stored: Stored, events: seq<Event>)
    requires ReadOwned(stored) == map[] && OnlySyncs(events)
    ensures LeftBy(config, if events == [] then map[] else Wanted(events[|events| - 1].rows),
                   Run(State(config, stored), events))
  {
    if events == [] {
      assert WithWanted(config, map[]) == config;
    } else {
      var init, last := events[..|events| - 1], events[|events| - 1];
      assert last.Sync?;
      SyncsLeaveLastWanted(config, stored, init);
      var previous := if init == [] then map[] else Wanted(init[|init| - 1].rows);
      NextSyncLeaves(config, previous, Run(State(config, stored), init), Wanted(last.rows));
    }
  }

  /** A final sync that advertises nothing restores the configuration exactly. */
  lemma {:induction false} EmptySyncRestores(config: Associations, stored: Stored, events: seq<Event>)
    requires ReadOwned(stored) == map[] && OnlySyncs(events)
    ensures var r := Run(State(config, stored), events + [Sync([])]);
            r.config == config && Owned(r) == map[]
  {
    var all := events + [Sync([])];
    SyncsLeaveLastWanted(config, stored, all);
    assert Wanted([]) == map[];
    assert WithWanted(config, map[]) == config;
  }

  // The reconciler itself.

  /** The workspace: its configuration and the module's own state. */
  class Workspace {
    var config: Associations
    var stored: Stored

    constructor (config: Associations, stored: Stored)
      ensures this.config == config && this.stored == stored
    {
      this.config, this.stored := config, stored;
    }

    ghost function View(): (s: State)
      reads this
    {
      State(config, stored)
    }

    method UserSets(glob: string, languageId: string)
      modifies this
      ensures View() == Step(old(View()), UserSet(glob, languageId))
    {
      config := config[glob := languageId];
    }

    method UserDeletes(glob: string)
      modifies this
      ensures View() == Step(old(View()), UserDelete(glob))
    {
      config := config - {glob};
    }

    /** `syncPackFileAssociations`: returns the globs in force and whether either store was written. */
    method SyncPackFileAssociations(hasFolders: bool, rows: seq<Row>)
      returns (inForce: set<string>, wroteConfig: bool, wroteOwned: bool)
      modifies this
      ensures View() == if hasFolders then Step(old(View()), Sync(rows)) else old(View())
      ensures inForce == if hasFolders then Owned(View()).Keys else {}
      ensures wroteConfig <==> config != old(config)
      ensures wroteOwned <==> config != old(config) || Owned(View()) != old(Owned(View()))
    {
      if !hasFolders {
        return {}, false, false;
      }
      var previous := ReadOwned(stored);
      var wanted := CollectWanted(rows);
      var current, nowOwned, changed := Install(config, previous, wanted);
      current, changed := Retire(config, previous, wanted, current, nowOwned, changed);
      SyncRemembersItsWrites(State(config, stored), wanted);
      wroteConfig := changed;
      wroteOwned := changed || previous != nowOwned;
      if changed {
        config := current;
      }
      if wroteOwned {
        stored := Record(nowOwned);
      }
      inForce := nowOwned.Keys;
    }
  }

  /** What the configuration becomes once the advertised globs are in and nothing is retired yet. */
  ghost predicate Installed(config: Associations, nowOwned: Associations, current: Associations)
  {
    current == config + nowOwned
  }

  /** Installs the advertised globs that nobody else holds. */
  method Install(config: Associations, previous: Associations, wanted: Associations)
    returns (current: Associations, nowOwned: Associations, changed: bool)
    ensures nowOwned == Claimed(config, previous, wanted)
    ensures Installed(config, nowOwned, current)
    ensures changed <==> current != config
  {
    hide Theirs, Claimed, Installed;
    current, nowOwned, changed := config, map[], false;
    InstallNone(config);
    var todo := wanted.Keys;
    while todo != {}
      invariant todo <= wanted.Keys
      invariant forall g :: g in nowOwned <==> g in wanted && g !in todo && !Theirs(config, previous, g)
      invariant forall g :: g in nowOwned ==> nowOwned[g] == wanted[g]
      invariant Installed(config, nowOwned, current)
      invariant changed <==> current != config
      decreases |todo|
    {
      var glob :| glob in todo;
      todo := todo - {glob};
      if !Theirs(config, previous, glob) {
        InstallOne(config, nowOwned, current, glob, wanted[glob]);
        nowOwned := nowOwned[glob := wanted[glob]];
        if glob !in current || current[glob] != wanted[glob] {
          current := current[glob := wanted[glob]];
          changed := true;
        }
      }
    }
    forall g
      ensures g in Claimed(config, previous, wanted) <==> g in nowOwned
      ensures g in nowOwned ==> Claimed(config, previous, wanted)[g] == nowOwned[g]
    {
      SyncAt(config, previous, wanted, g);
    }
  }

  lemma {:induction false} InstallNone(config: Associations)
    ensures Installed(config, map[], config)
  {
  }

  lemma {:induction false} InstallOne(
    config: Associations, nowOwned: Associations, current: Associations, g: string, v: string)
    requires Installed(config, nowOwned, current) && g !in nowOwned
    ensures Installed(config, nowOwned[g := v], current[g := v])
    ensures g in current && current[g] == v ==> current[g := v] == current
    ensures !(g in current && current[g] == v) ==> current[g := v] != config
  {
    assert current[g := v][g] == v;
    assert g in current ==> g in config && current[g] == config[g];
  }

  /** The installed configuration without the entries of ours that are retired so far. */
  ghost predicate Retired(config: Associations, previous: Associations, wanted: Associations,
                          installed: Associations, todo: set<string>, current: Associations)
  {
    && (forall g :: g in current <==>
          g in installed && !(g in previous && g !in todo && g !in wanted && Ours(config, previous, g)))
    && (forall g :: g in current ==> current[g] == installed[g])
  }

  lemma {:induction false} AllRetired(config: Associations, previous: Associations, wanted: Associations,
                                      installed: Associations, current: Associations)
    requires Installed(config, Claimed(config, previous, wanted), installed)
    requires Retired(config, previous, wanted, installed, {}, current)
    ensures current == Reconciled(config, previous, wanted)
  {
    forall g
      ensures var r := Reconciled(config, previous, wanted);
        (g in current <==> g in r) && (g in current ==> current[g] == r[g])
    {
      SyncAt(config, previous, wanted, g);
      hide Reconciled, Claimed;
    }
    hide Reconciled, Claimed, Retired, Installed;
  }

  lemma {:induction false} RetireOne(config: Associations, previous: Associations, wanted: Associations,
                                     installed: Associations, todo: set<string>, current: Associations, g: string)
    requires Installed(config, Claimed(config, previous, wanted), installed)
    requires Retired(config, previous, wanted, installed, todo, current) && g in todo && g in previous
    ensures var keep := g in wanted || g !in current || current[g] != previous[g];
            && Retired(config, previous, wanted, installed, todo - {g}, if keep then current else current - {g})
            && (!keep ==> g in config && current - {g} != config)
  {
    if g !in wanted && g in current && current[g] == previous[g] {
      assert g in config && Ours(config, previous, g);
      assert g !in current - {g};
    }
  }

  /** Retires the entries of ours that are no longer advertised. */
  method Retire(config: Associations, previous: Associations, wanted: Associations,
                installed: Associations, ghost nowOwned: Associations, changedBefore: bool)
    returns (current: Associations, changed: bool)
    requires nowOwned == Claimed(config, previous, wanted) && Installed(config, nowOwned, installed)
    requires changedBefore <==> installed != config
    ensures current == Reconciled(config, previous, wanted)
    ensures changed <==> current != config
  {
    hide Retired, Installed, Claimed, Reconciled;
    current, changed := installed, changedBefore;
    var retire := previous.Keys;
    NoneRetired(config, previous, wanted, installed);
    while retire != {}
      invariant retire <= previous.Keys
      invariant Retired(config, previous, wanted, installed, retire, current)
      invariant changed <==> current != config
      decreases |retire|
    {
      var glob :| glob in retire;
      RetireOne(config, previous, wanted, installed, retire, current, glob);
      retire := retire - {glob};
      if glob !in wanted && glob in current && current[glob] == previous[glob] {
        current := current - {glob};
        changed := true;
      }
    }
    AllRetired(config, previous, wanted, installed, current);
  }

  lemma {:induction false} NoneRetired(config: Associations, previous: Associations, wanted: Associations,
                                       installed: Associations)
    ensures Retired(config, previous, wanted, installed, previous.Keys, installed)
  {
  }

  method CollectWanted(rows: seq<Row>) returns (wanted: Associations)
    ensures wanted == Wanted(rows)
  {
    wanted := map[];
    var i := 0;
    while i < |rows|
      invariant i <= |rows|
      invariant wanted == Wanted(rows[..i])
    {
      assert rows[..i + 1][..i] == rows[..i];
      if rows[i].extension != "" && rows[i].languageId != "" {
        wanted := wanted[GlobFor(rows[i].extension) := rows[i].languageId];
      }
      i := i + 1;
    }
    assert rows[..|rows|] == rows;
  }
}
