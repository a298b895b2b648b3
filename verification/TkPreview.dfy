/** The Tk preview panel: asynchronous layout requests guarded by serials. */
module TkPreview {
  import opened Options

  type Uri = string

  /** A document as the editor knows it: its version, and whether its language is Tcl. */
  datatype Doc = Doc(version: nat, tcl: bool)

  /** One version of one document. */
  datatype Snapshot = Snapshot(uri: Uri, version: nat)

  /** A layout request under way: its serial, what it asks for, and the panel it was made for. */
  datatype Request = Request(serial: nat, asked: Snapshot, life: nat)

  /** What the server answers: a model of some schema and snapshot, something that is no object, or an error. */
  datatype Reply = Model(schema: int, of: Snapshot) | NotAnObject | Failed

  /** A painted layout: the request's serial and panel, the panel painted on, the snapshot, and the
      document that was active at that moment. */
  datatype Paint = Paint(serial: nat, requestedIn: nat, paintedIn: nat, shown: Snapshot, active: Snapshot)

  datatype State = State(
    docs: map<Uri, Doc>, active: Option<Uri>, client: bool,
    panel: Option<nat>, lives: nat, serial: nat, rendered: Option<Snapshot>, timer: bool,
    inFlight: set<Request>, painted: seq<Paint>, revealed: seq<Snapshot>)

  datatype Event =
    | Open | Ready | Dispose | DebounceFires
    | SwitchEditor(to: Option<Uri>) | Edit(uri: Uri) | SetLanguage(uri: Uri, tcl: bool) | ClientIs(up: bool)
    | Answer(request: Request, reply: Reply)
    | FinishReveal(clicked: Snapshot)

  function DocAt(docs: map<Uri, Doc>, uri: Uri): (d: Doc)
  {
    if uri in docs then docs[uri] else Doc(1, false)
  }

  function Current(s: State, uri: Uri): (c: Snapshot)
  {
    Snapshot(uri, DocAt(s.docs, uri).version)
  }

  const InitialState := State(map[], None, false, None, 0, 0, None, false, {}, [], [])

  /** The next serial, with nothing rendered: every path that withdraws the present layout. */
  function Withdraw(s: State): (r: State)
  {
    s.(serial := s.serial + 1, rendered := None)
  }

  function Refresh(s: State): (r: State)
  {
    if s.panel.None? then s
    else if s.active.None? || !DocAt(s.docs, s.active.value).tcl || !s.client then Withdraw(s)
    else
      var next := s.serial + 1;
      s.(serial := next, inFlight := s.inFlight + {Request(next, Current(s, s.active.value), s.panel.value)})
  }

  function OpenPanel(s: State): (r: State)
  {
    if s.panel.Some? then Refresh(s)
    else Refresh(s.(panel := Some(s.lives), lives := s.lives + 1))
  }

  function DisposePanel(s: State): (r: State)
  {
    if s.panel.None? then s else Withdraw(s).(panel := None, timer := false)
  }

  function EditorChanged(s: State): (r: State)
  {
    if s.panel.None? then s else Refresh(Withdraw(s))
  }

  function DocChanged(s: State): (r: State)
  {
    if s.panel.None? then s else Withdraw(s).(timer := true)
  }

  /** The wiring: only an edit of the active document, while its language is Tcl, reaches the preview. */
  function Edited(s: State, uri: Uri): (r: State)
  {
    var d := DocAt(s.docs, uri);
    var t := s.(docs := s.docs[uri := d.(version := d.version + 1)]);
    if s.active == Some(uri) && d.tcl then DocChanged(t) else t
  }

  function Answered(s: State, q: Request, reply: Reply): (r: State)
  {
    var t := s.(inFlight := s.inFlight - {q});
    if s.panel.None? || q.serial != s.serial || !reply.Model? then t
    else if s.active.None? || Current(s, s.active.value) != q.asked then t
    else if reply.schema != 1 || reply.of != q.asked then t
    else
      var paint := Paint(q.serial, q.life, s.panel.value, reply.of, Current(s, s.active.value));
      t.(rendered := Some(q.asked), painted := s.painted + [paint])
  }

  function RevealFinished(s: State, clicked: Snapshot): (r: State)
  {
    if s.rendered != Some(clicked) || Current(s, clicked.uri) != clicked then Refresh(s)
    else s.(revealed := s.revealed + [clicked])
  }

  function Step(s: State, e: Event): (r: State)
  {
    match e
    case Open => OpenPanel(s)
    case Ready => Refresh(s)
    case Dispose => DisposePanel(s)
    case DebounceFires => if s.timer then Refresh(s.(timer := false)) else s
    case SwitchEditor(to) => EditorChanged(s.(active := to))
    case Edit(uri) => Edited(s, uri)
    case SetLanguage(uri, tcl) => s.(docs := s.docs[uri := DocAt(s.docs, uri).(tcl := tcl)])
    case ClientIs(up) => s.(client := up)
    case Answer(q, reply) => if q in s.inFlight then Answered(s, q, reply) else s
    case FinishReveal(clicked) => RevealFinished(s, clicked)
  }

  function Run(events: seq<Event>): (s: State)
  {
    if events == [] then InitialState else Step(Run(events[..|events| - 1]), events[|events| - 1])
  }

  // The invariant.

  /** Serials: none is ahead of the counter, no two requests share one, and a request that is still
      current was made for the panel that is open and has not been painted. */
  ghost predicate SerialsOk(inFlight: set<Request>, serial: nat, lives: nat, panel: Option<nat>, painted: seq<Paint>)
  {
    && (forall q :: q in inFlight ==> q.serial <= serial && q.life < lives)
    && (forall q, p :: q in inFlight && p in inFlight && q.serial == p.serial ==> q == p)
    && (forall q :: q in inFlight && q.serial == serial ==> panel == Some(q.life))
    && (forall i :: 0 <= i < |painted| ==> painted[i].serial <= serial)
    && (forall i, q :: 0 <= i < |painted| && q in inFlight && q.serial == serial ==> painted[i].serial < serial)
    && (panel.Some? ==> panel.value < lives)
  }

  ghost predicate PaintsOk(painted: seq<Paint>)
  {
    && (forall i, j :: 0 <= i < j < |painted| ==> painted[i].serial < painted[j].serial)
    && (forall i :: 0 <= i < |painted| ==>
          painted[i].requestedIn == painted[i].paintedIn && painted[i].shown == painted[i].active)
  }

  /** What is rendered is the last thing painted, for the active document, at no later version than its own. */
  ghost predicate RenderedOk(rendered: Option<Snapshot>, panel: Option<nat>, active: Option<Uri>,
                             docs: map<Uri, Doc>, painted: seq<Paint>)
  {
    rendered.Some? ==>
      var r := rendered.value;
      && panel.Some? && active == Some(r.uri)
      && |painted| > 0 && painted[|painted| - 1].shown == r
      && r.version <= DocAt(docs, r.uri).version
  }

  ghost predicate RevealsOk(painted: seq<Paint>, revealed: seq<Snapshot>)
  {
    forall i :: 0 <= i < |revealed| ==> WasPainted(painted, revealed[i])
  }

  ghost predicate WasPainted(painted: seq<Paint>, r: Snapshot)
  {
    exists j :: 0 <= j < |painted| && painted[j].shown == r
  }

  ghost predicate Inv(s: State)
  {
    && SerialsOk(s.inFlight, s.serial, s.lives, s.panel, s.painted)
    && PaintsOk(s.painted)
    && RenderedOk(s.rendered, s.panel, s.active, s.docs, s.painted)
    && RevealsOk(s.painted, s.revealed)
  }

  lemma {:induction false} WithdrawKeeps(s: State)
    requires Inv(s)
    ensures Inv(Withdraw(s))
    ensures Inv(Withdraw(s).(panel := None, timer := false)) && Inv(Withdraw(s).(timer := true))
  {
    hide PaintsOk, RevealsOk;
  }

  lemma {:induction false} RefreshKeeps(s: State)
    requires Inv(s)
    ensures Inv(Refresh(s))
  {
    WithdrawKeeps(s);
    hide RenderedOk, RevealsOk, PaintsOk;
  }

  lemma {:induction false} OpenKeeps(s: State)
    requires Inv(s)
    ensures Inv(OpenPanel(s))
  {
    if s.panel.None? {
      var t := s.(panel := Some(s.lives), lives := s.lives + 1);
      assert Inv(t);
      RefreshKeeps(t);
    } else {
      RefreshKeeps(s);
    }
  }

  lemma {:induction false} SwitchKeeps(s: State, to: Option<Uri>)
    requires Inv(s)
    ensures Inv(EditorChanged(s.(active := to)))
  {
    hide Inv, Refresh;
    if s.panel.None? {
      NothingRendered(s);
      WithdrawnIgnores(s, s.docs, to);
    } else {
      WithdrawKeeps(s);
      WithdrawnIgnores(Withdraw(s), s.docs, to);
      RefreshKeeps(Withdraw(s).(active := to));
    }
  }

  lemma {:induction false} NothingRendered(s: State)
    requires Inv(s) && s.panel.None?
    ensures s.rendered.None?
  {
    hide SerialsOk, PaintsOk, RevealsOk;
  }

  /** With nothing rendered, documents and the active editor may change freely. */
  lemma {:induction false} WithdrawnIgnores(s: State, docs: map<Uri, Doc>, to: Option<Uri>)
    requires Inv(s) && s.rendered.None?
    ensures Inv(s.(docs := docs, active := to)) && Inv(s.(active := to)) && Inv(s.(docs := docs))
  {
    hide SerialsOk, PaintsOk, RevealsOk;
  }

  lemma {:induction false} PaintKeepsOrder(
    inFlight: set<Request>, q: Request, serial: nat, lives: nat, panel: Option<nat>, painted: seq<Paint>, paint: Paint)
    requires SerialsOk(inFlight, serial, lives, panel, painted) && PaintsOk(painted)
    requires q in inFlight && q.serial == serial == paint.serial
    requires paint.requestedIn == paint.paintedIn && paint.shown == paint.active
    ensures SerialsOk(inFlight - {q}, serial, lives, panel, painted + [paint]) && PaintsOk(painted + [paint])
  {
    var after := painted + [paint];
    assert forall i :: 0 <= i < |painted| ==> painted[i].serial < serial;
    assert forall p :: p in inFlight - {q} ==> p.serial != serial;
  }

  lemma {:induction false} AnsweredKeeps(s: State, q: Request, reply: Reply)
    requires Inv(s) && q in s.inFlight
    ensures Inv(Answered(s, q, reply))
  {
    var t := Answered(s, q, reply);
    if t.painted == s.painted {
      assert t == s.(inFlight := s.inFlight - {q});
    } else {
      var paint := t.painted[|s.painted|];
      PaintKeepsOrder(s.inFlight, q, s.serial, s.lives, s.panel, s.painted, paint);
      RevealsStay(s.painted, t.painted, s.revealed);
      hide RevealsOk, SerialsOk, PaintsOk;
    }
  }

  lemma {:induction false} RevealsStay(before: seq<Paint>, after: seq<Paint>, revealed: seq<Snapshot>)
    requires RevealsOk(before, revealed) && before <= after
    ensures RevealsOk(after, revealed)
  {
    forall i | 0 <= i < |revealed|
      ensures WasPainted(after, revealed[i])
    {
      assert WasPainted(before, revealed[i]);
      var j :| 0 <= j < |before| && before[j].shown == revealed[i];
      assert after[j] == before[j];
    }
  }

  /** A document that is not the active one may change freely; so may the active one when nothing is rendered. */
  lemma {:induction false} EditedKeeps(s: State, uri: Uri)
    requires Inv(s)
    ensures Inv(Edited(s, uri))
  {
    hide SerialsOk, PaintsOk, RevealsOk;
    var d := DocAt(s.docs, uri);
    if s.active == Some(uri) && d.tcl && s.panel.Some? {
      WithdrawKeeps(s);
      WithdrawnIgnores(Withdraw(s).(timer := true), s.docs[uri := d.(version := d.version + 1)], s.active);
    }
  }

  lemma {:induction false} LanguageKeeps(s: State, uri: Uri, tcl: bool)
    requires Inv(s)
    ensures Inv(s.(docs := s.docs[uri := DocAt(s.docs, uri).(tcl := tcl)]))
  {
    hide SerialsOk, PaintsOk, RevealsOk;
  }

  lemma {:induction false} RevealKeeps(s: State, clicked: Snapshot)
    requires Inv(s)
    ensures Inv(RevealFinished(s, clicked))
  {
    if s.rendered != Some(clicked) || Current(s, clicked.uri) != clicked {
      RefreshKeeps(s);
    } else {
      assert s.painted[|s.painted| - 1].shown == clicked;
      RevealsGrow(s.painted, s.revealed, clicked);
    }
  }

  lemma {:induction false} RevealsGrow(painted: seq<Paint>, revealed: seq<Snapshot>, r: Snapshot)
    requires RevealsOk(painted, revealed) && |painted| > 0 && painted[|painted| - 1].shown == r
    ensures RevealsOk(painted, revealed + [r])
  {
    assert WasPainted(painted, r);
  }

  lemma {:induction false} StepKeeps(s: State, e: Event)
    requires Inv(s)
    ensures Inv(Step(s, e))
  {
    match e
    case Open => OpenKeeps(s);
    case Ready => RefreshKeeps(s);
    case Dispose => WithdrawKeeps(s);
    case DebounceFires =>
      if s.timer {
        RefreshKeeps(s.(timer := false));
      }
    case SwitchEditor(to) => SwitchKeeps(s, to);
    case Edit(uri) => EditedKeeps(s, uri);
    case SetLanguage(uri, tcl) => LanguageKeeps(s, uri, tcl);
    case ClientIs(up) =>
    case Answer(q, reply) =>
      if q in s.inFlight {
        AnsweredKeeps(s, q, reply);
      }
    case FinishReveal(clicked) => RevealKeeps(s, clicked);
  }

  lemma {:induction false} RunKeeps(events: seq<Event>)
    ensures Inv(Run(events))
  {
    if events == [] {
    } else {
      RunKeeps(events[..|events| - 1]);
      StepKeeps(Run(events[..|events| - 1]), events[|events| - 1]);
    }
  }

  // What every run guarantees.

  /** Layouts are painted in strictly increasing serial order, only on the panel they were requested for,
      and only while their snapshot is the active document at its current version. */
  lemma {:induction false} NeverPaintsStale(events: seq<Event>)
    ensures var p := Run(events).painted;
            && (forall i, j :: 0 <= i < j < |p| ==> p[i].serial < p[j].serial)
            && (forall i :: 0 <= i < |p| ==> p[i].requestedIn == p[i].paintedIn && p[i].shown == p[i].active)
  {
    RunKeeps(events);
  }

  /** A rendered document is the active one on an open panel, and a source reveal only ever uses a snapshot that
      was painted. */
  lemma {:induction false} RenderedNamesActive(events: seq<Event>)
    ensures var s := Run(events);
            && (s.rendered.Some? ==> s.panel.Some? && s.active == Some(s.rendered.value.uri))
            && (forall i :: 0 <= i < |s.revealed| ==> WasPainted(s.painted, s.revealed[i]))
  {
    RunKeeps(events);
  }

  // When the rendered version is the current one.

  /** The rendered snapshot is older than its document. */
  ghost predicate Behind(s: State)
  {
    s.rendered.Some? && s.rendered.value.version < DocAt(s.docs, s.rendered.value.uri).version
  }

  /** The event is an edit of the rendered document while its language is not Tcl. */
  ghost predicate Misses(s: State, e: Event)
  {
    && s.rendered.Some? && e == Edit(s.rendered.value.uri)
    && !DocAt(s.docs, s.rendered.value.uri).tcl
  }

  /** The event withdraws what is rendered, or paints. */
  ghost predicate Replaces(s: State, e: Event)
  {
    Step(s, e).rendered.None? || Step(s, e).painted != s.painted
  }

  /** At place `k` of the run an edit is missed, and nothing is withdrawn or painted after it. */
  ghost predicate MissedAt(events: seq<Event>, k: nat)
  {
    && k < |events| && Misses(Run(events[..k]), events[k])
    && forall i :: k < i < |events| ==> !Replaces(Run(events[..i]), events[i])
  }

  ghost predicate EditWasMissed(events: seq<Event>)
  {
    exists k: nat :: MissedAt(events, k)
  }

  /** Only an edit changes a version, and only an answer paints. */
  lemma {:induction false} OthersLeaveVersions(s: State, e: Event)
    requires !e.Edit? && !e.Answer?
    ensures Step(s, e).rendered.None? || Step(s, e).rendered == s.rendered
    ensures Step(s, e).painted == s.painted
    ensures forall u :: DocAt(Step(s, e).docs, u).version == DocAt(s.docs, u).version
  {
  }

  lemma {:induction false} BehindAfterEdit(s: State, u: Uri)
    requires RenderedOk(s.rendered, s.panel, s.active, s.docs, s.painted) && Step(s, Edit(u)).rendered.Some?
    ensures Behind(Step(s, Edit(u))) <==> Behind(s) || Misses(s, Edit(u))
    ensures !Replaces(s, Edit(u))
  {
  }

  lemma {:induction false} BehindAfterAnswer(s: State, q: Request, reply: Reply)
    requires Step(s, Answer(q, reply)).rendered.Some?
    ensures Behind(Step(s, Answer(q, reply))) <==> Behind(s) && !Replaces(s, Answer(q, reply))
  {
  }

  lemma {:induction false} BehindAfter(s: State, e: Event)
    requires Inv(s) && Step(s, e).rendered.Some?
    ensures Behind(Step(s, e)) <==> (Behind(s) && !Replaces(s, e)) || Misses(s, e)
  {
    hide SerialsOk, PaintsOk, RevealsOk;
    if e.Edit? {
      BehindAfterEdit(s, e.uri);
    } else if e.Answer? {
      BehindAfterAnswer(s, e.request, e.reply);
    } else {
      OthersLeaveVersions(s, e);
      hide Step, RenderedOk;
    }
  }

  lemma {:induction false} MissedBefore(events: seq<Event>, e: Event, k: nat)
    requires k < |events|
    ensures MissedAt(events + [e], k) <==> MissedAt(events, k) && !Replaces(Run(events), e)
  {
    hide Run, Misses, Replaces;
    var all := events + [e];
    assert all[..|events|] == events && all[|events|] == e;
    assert forall i :: 0 <= i < |events| ==> all[..i] == events[..i] && all[i] == events[i];
  }

  lemma {:induction false} MissedJustNow(events: seq<Event>, e: Event)
    ensures MissedAt(events + [e], |events|) <==> Misses(Run(events), e)
  {
    assert (events + [e])[..|events|] == events;
  }

  lemma {:induction false} MissedAfter(events: seq<Event>, e: Event)
    ensures EditWasMissed(events + [e]) <==>
              (EditWasMissed(events) && !Replaces(Run(events), e)) || Misses(Run(events), e)
  {
    MissedJustNow(events, e);
    forall k: nat | k < |events|
      ensures MissedAt(events + [e], k) <==> MissedAt(events, k) && !Replaces(Run(events), e)
    {
      MissedBefore(events, e, k);
    }
    assert forall k: nat :: MissedAt(events + [e], k) ==> k <= |events|;
    assert forall k: nat :: MissedAt(events, k) ==> k < |events|;
    hide MissedAt, Misses, Replaces, Run;
    if EditWasMissed(events + [e]) {
      var k: nat :| MissedAt(events + [e], k);
      assert k < |events| || k == |events|;
    }
    if EditWasMissed(events) && !Replaces(Run(events), e) {
      var k: nat :| MissedAt(events, k);
      assert MissedAt(events + [e], k);
    }
  }

  lemma {:induction false} BehindExactlyWhenMissed(events: seq<Event>)
    ensures Run(events).rendered.Some? ==> (Behind(Run(events)) <==> EditWasMissed(events))
  {
    if events == [] {
      assert Run(events).rendered.None?;
    } else {
      var before, e := events[..|events| - 1], events[|events| - 1];
      assert events == before + [e];
      BehindExactlyWhenMissed(before);
      RunKeeps(before);
      MissedAfter(before, e);
      hide Inv, EditWasMissed, Step, Misses;
      if Step(Run(before), e).rendered.Some? {
        BehindAfter(Run(before), e);
        KeptRendered(Run(before), e);
      }
    }
  }

  /** What is rendered after an event that neither withdraws nor paints was rendered before it. */
  lemma {:induction false} KeptRendered(s: State, e: Event)
    ensures !Replaces(s, e) ==> s.rendered.Some?
  {
  }

  /** A rendered document is at its current version exactly when the run missed no edit of it: none came while its
      language was not Tcl, with no withdrawal and no paint since. */
  lemma {:induction false} RenderedIsCurrent(events: seq<Event>)
    ensures var s := Run(events);
            s.rendered.Some? ==>
              (s.rendered.value == Current(s, s.rendered.value.uri) <==> !EditWasMissed(events))
  {
    RunKeeps(events);
    BehindExactlyWhenMissed(events);
  }

  /** A run that leaves an out-of-date document rendered: the language is taken away, and the edit that follows is
      not reported to the preview. */
  lemma {:induction false} LanguageChangeHidesAnEdit()
    ensures var u := "file:///a.tcl";
            var events := [SetLanguage(u, true), ClientIs(true), SwitchEditor(Some(u)), Open,
                           Answer(Request(1, Snapshot(u, 1), 0), Model(1, Snapshot(u, 1))),
                           SetLanguage(u, false), Edit(u)];
            var s := Run(events);
            s.rendered == Some(Snapshot(u, 1)) && Current(s, u) == Snapshot(u, 2)
  {
    var u := "file:///a.tcl";
    var events := [SetLanguage(u, true), ClientIs(true), SwitchEditor(Some(u)), Open,
                   Answer(Request(1, Snapshot(u, 1), 0), Model(1, Snapshot(u, 1))),
                   SetLanguage(u, false), Edit(u)];
    var s := Opened(u);
    var r := Hidden(u, s);
    hide Step;
    RunOfSeven(events);
  }

  lemma {:induction false} RunOfSeven(events: seq<Event>)
    requires |events| == 7
    ensures Run(events) ==
      Step(Step(Step(Step(Step(Step(Step(InitialState, events[0]), events[1]), events[2]), events[3]), events[4]),
                events[5]), events[6])
  {
    hide Step;
    RunPrefix(events, 0);
    RunPrefix(events, 1);
    RunPrefix(events, 2);
    RunPrefix(events, 3);
    RunPrefix(events, 4);
    RunPrefix(events, 5);
    RunPrefix(events, 6);
    assert events[..0] == [] && events[..7] == events;
  }

  lemma {:induction false} Opened(u: Uri) returns (s: State)
    ensures s == Step(Step(Step(Step(InitialState, SetLanguage(u, true)), ClientIs(true)), SwitchEditor(Some(u))), Open)
    ensures s == State(map[u := Doc(1, true)], Some(u), true, Some(0), 1, 1, None, false,
                       {Request(1, Snapshot(u, 1), 0)}, [], [])
  {
    s := Step(Step(Step(Step(InitialState, SetLanguage(u, true)), ClientIs(true)), SwitchEditor(Some(u))), Open);
  }

  lemma {:induction false} Hidden(u: Uri, s: State) returns (r: State)
    requires s == State(map[u := Doc(1, true)], Some(u), true, Some(0), 1, 1, None, false,
                        {Request(1, Snapshot(u, 1), 0)}, [], [])
    ensures r == Step(Step(Step(s, Answer(Request(1, Snapshot(u, 1), 0), Model(1, Snapshot(u, 1)))),
                           SetLanguage(u, false)), Edit(u))
    ensures r.rendered == Some(Snapshot(u, 1)) && Current(r, u) == Snapshot(u, 2)
  {
    var painted := Step(s, Answer(Request(1, Snapshot(u, 1), 0), Model(1, Snapshot(u, 1))));
    assert painted.rendered == Some(Snapshot(u, 1)) && painted.docs == s.docs && painted.active == Some(u);
    r := Step(Step(painted, SetLanguage(u, false)), Edit(u));
  }

  lemma {:induction false} RunPrefix(events: seq<Event>, n: nat)
    requires n < |events|
    ensures Run(events[..n + 1]) == Step(Run(events[..n]), events[n])
  {
    assert events[..n + 1][..n] == events[..n];
  }

  // The handlers.

  // What the preview does not fail to do.

  /** There is a panel to draw on, a server to ask, and a Tcl document to ask about. */
  ghost predicate CanAsk(s: State)
  {
    s.panel.Some? && s.client && s.active.Some? && DocAt(s.docs, s.active.value).tcl
  }

  /** The newest request asks for the active document at its current version, for the open panel. */
  ghost predicate Asking(s: State)
  {
    && s.panel.Some? && s.active.Some?
    && Request(s.serial, Current(s, s.active.value), s.panel.value) in s.inFlight
  }

  lemma {:induction false} RefreshAsks(s: State)
    ensures CanAsk(s) ==> Asking(Refresh(s))
  {
  }

  /** Opening the preview, switching to a Tcl document and an expired timer all ask for the active document. */
  lemma {:induction false} TriggersAsk(events: seq<Event>, e: Event)
    requires e == Open || e == Ready || e.SwitchEditor? || (e == DebounceFires && Run(events).timer)
    ensures CanAsk(Step(Run(events), e)) ==> Asking(Step(Run(events), e))
  {
    var s := Run(events);
    RefreshAsks(s);
    RefreshAsks(s.(panel := Some(s.lives), lives := s.lives + 1));
    RefreshAsks(s.(timer := false));
    if e.SwitchEditor? {
      RefreshAsks(Withdraw(s.(active := e.to)));
      RefreshLeavesPanel(Withdraw(s.(active := e.to)));
    }
    RefreshLeavesPanel(s);
    RefreshLeavesPanel(s.(panel := Some(s.lives), lives := s.lives + 1));
    RefreshLeavesPanel(s.(timer := false));
    hide Refresh, Run;
  }

  lemma {:induction false} RefreshLeavesPanel(s: State)
    ensures var r := Refresh(s);
      r.panel == s.panel && r.client == s.client && r.active == s.active && r.docs == s.docs
  {
  }

  /** After any run, an edit of the active Tcl document withdraws the layout; once the timer has expired, the new
      version is asked for; and a proper answer to that is painted. */
  lemma {:induction false} EditIsFollowedUp(events: seq<Event>)
    requires CanAsk(Run(events))
    ensures var u := Run(events).active.value;
      var edited := Step(Run(events), Edit(u));
      var asking := Step(edited, DebounceFires);
      var now := Snapshot(u, DocAt(Run(events).docs, u).version + 1);
      && edited.rendered.None? && edited.timer && !asking.timer
      && Request(asking.serial, now, asking.panel.value) in asking.inFlight && asking.serial > Run(events).serial
      && Step(asking, Answer(Request(asking.serial, now, asking.panel.value), Model(1, now))).rendered == Some(now)
  {
    hide Run;
    var s := Run(events);
    EditArms(s, s.active.value);
    var edited := Step(s, Edit(s.active.value));
    ExpiryAsks(edited);
    AnswerPaints(Step(edited, DebounceFires));
    hide Step;
  }

  lemma {:induction false} EditArms(s: State, u: Uri)
    requires CanAsk(s) && s.active == Some(u)
    ensures var r := Step(s, Edit(u));
      && CanAsk(r) && r.rendered.None? && r.timer && r.active == s.active && r.serial == s.serial + 1
      && Current(r, u) == Snapshot(u, DocAt(s.docs, u).version + 1)
  {
  }

  lemma {:induction false} ExpiryAsks(s: State)
    requires CanAsk(s) && s.timer
    ensures var r := Step(s, DebounceFires);
      && Asking(r) && !r.timer && r.active == s.active && r.serial > s.serial
      && Current(r, s.active.value) == Current(s, s.active.value)
  {
  }

  lemma {:induction false} AnswerPaints(s: State)
    requires Asking(s)
    ensures var now := Current(s, s.active.value);
      var r := Step(s, Answer(Request(s.serial, now, s.panel.value), Model(1, now)));
      r.rendered == Some(now) && |r.painted| == |s.painted| + 1 && r.painted[|s.painted|].shown == now
  {
  }

  /** Whenever the newest request is for the active document as it is, a proper answer paints it. */
  lemma {:induction false} ProperAnswerIsPainted(events: seq<Event>)
    requires Asking(Run(events))
    ensures var s := Run(events);
      var now := Current(s, s.active.value);
      var r := Step(s, Answer(Request(s.serial, now, s.panel.value), Model(1, now)));
      r.rendered == Some(now) && |r.painted| == |s.painted| + 1 && r.painted[|s.painted|].shown == now
  {
    AnswerPaints(Run(events));
  }

  /** A click on what is rendered, at its current version, reveals its source. */
  lemma {:induction false} CurrentClickReveals(events: seq<Event>)
    requires var s := Run(events); s.rendered.Some? && Current(s, s.rendered.value.uri) == s.rendered.value
    ensures var s := Run(events);
      Step(s, FinishReveal(s.rendered.value)).revealed == s.revealed + [s.rendered.value]
  {
  }

  /** A closed preview shows nothing, waits for nothing, and paints no answer until it is opened again. */
  lemma {:induction false} ClosedIsQuiet(events: seq<Event>, q: Request, reply: Reply)
    ensures var s := Step(Run(events), Dispose);
      && s.panel.None? && s.rendered.None? && !s.timer
      && Step(s, Answer(q, reply)).painted == s.painted
  {
    RunKeeps(events);
    TimerNeedsPanel(events);
  }

  lemma {:induction false} TimerNeedsPanel(events: seq<Event>)
    ensures Run(events).timer ==> Run(events).panel.Some?
  {
    if events == [] {
    } else {
      TimerNeedsPanel(events[..|events| - 1]);
      TimerStep(Run(events[..|events| - 1]), events[|events| - 1]);
      hide Step;
    }
  }

  lemma {:induction false} TimerStep(s: State, e: Event)
    requires s.timer ==> s.panel.Some?
    ensures Step(s, e).timer ==> Step(s, e).panel.Some?
  {
    RefreshLeavesTimer(s);
    RefreshLeavesTimer(s.(timer := false));
    RefreshLeavesTimer(s.(panel := Some(s.lives), lives := s.lives + 1));
    if e.SwitchEditor? {
      RefreshLeavesTimer(Withdraw(s.(active := e.to)));
    }
    hide Refresh;
  }

  lemma {:induction false} RefreshLeavesTimer(s: State)
    ensures Refresh(s).timer == s.timer && Refresh(s).panel == s.panel
  {
  }

  // Why a preview may stay empty.

  /** All is ready, and still nothing is rendered, asked for or about to be asked for. */
  ghost predicate Idle(s: State)
  {
    CanAsk(s) && s.rendered.None? && !s.timer && !Asking(s)
  }

  /** The newest request is answered without a paint, or a document becomes Tcl or the server comes up, which the
      preview is not told of. */
  ghost predicate Excuses(s: State, e: Event)
  {
    match e
    case Answer(q, _) => q in s.inFlight && q.serial == s.serial && Step(s, e).painted == s.painted
    case SetLanguage(_, _) => !CanAsk(s) && CanAsk(Step(s, e))
    case ClientIs(_) => !CanAsk(s) && CanAsk(Step(s, e))
    case _ => false
  }

  lemma {:induction false} RefreshIsNotIdle(s: State)
    ensures !Idle(Refresh(s))
  {
    RefreshAsks(s);
    RefreshLeavesPanel(s);
    hide Refresh;
  }

  lemma {:induction false} IdleStep(s: State, e: Event)
    requires Inv(s) && (s.timer ==> s.panel.Some?) && Idle(Step(s, e))
    ensures Step(s, e).serial == s.serial && (Idle(s) || Excuses(s, e))
  {
    match e
    case Open => IdleOpen(s);
    case Ready => RefreshIsNotIdle(s);
    case Dispose =>
    case DebounceFires =>
      if s.timer {
        RefreshIsNotIdle(s.(timer := false));
      }
    case SwitchEditor(to) => IdleSwitch(s, to);
    case Edit(uri) => IdleEdit(s, uri);
    case SetLanguage(uri, tcl) =>
    case ClientIs(up) =>
    case Answer(q, reply) => IdleAnswer(s, q, reply);
    case FinishReveal(clicked) => IdleReveal(s, clicked);
  }

  lemma {:induction false} IdleOpen(s: State)
    ensures !Idle(Step(s, Open))
  {
    RefreshIsNotIdle(s);
    RefreshIsNotIdle(s.(panel := Some(s.lives), lives := s.lives + 1));
    hide Refresh;
  }

  lemma {:induction false} IdleSwitch(s: State, to: Option<Uri>)
    ensures !Idle(Step(s, SwitchEditor(to)))
  {
    RefreshIsNotIdle(Withdraw(s.(active := to)));
    hide Refresh;
  }

  lemma {:induction false} IdleEdit(s: State, uri: Uri)
    requires Idle(Step(s, Edit(uri)))
    ensures Step(s, Edit(uri)).serial == s.serial && Idle(s)
  {
  }

  lemma {:induction false} IdleAnswer(s: State, q: Request, reply: Reply)
    requires Idle(Step(s, Answer(q, reply)))
    ensures var e := Answer(q, reply); Step(s, e).serial == s.serial && (Idle(s) || Excuses(s, e))
  {
  }

  lemma {:induction false} IdleReveal(s: State, clicked: Snapshot)
    ensures !Idle(Step(s, FinishReveal(clicked)))
  {
    RefreshIsNotIdle(s);
    hide Refresh;
  }

  /** At place `k` of the run the preview got its excuse, and no newer request was due since. */
  ghost predicate ExcusedAt(events: seq<Event>, k: nat)
  {
    && k < |events| && Excuses(Run(events[..k]), events[k])
    && Run(events[..k + 1]).serial == Run(events).serial
  }

  /** A preview that could ask never sits idle without an excuse: over every run, if nothing is rendered, asked for
      or about to be, the newest request was answered without a paint, or a document has become Tcl or the server
      has come up since. */
  lemma {:induction false} NeverIdleWithoutExcuse(events: seq<Event>)
    requires Idle(Run(events))
    ensures exists k: nat :: ExcusedAt(events, k)
    decreases |events|
  {
    if events == [] {
      assert false;
    } else {
      var before := events[..|events| - 1];
      LastStepIsIdle(events);
      hide Idle, Run, Excuses, ExcusedAt;
      if Idle(Run(before)) {
        NeverIdleWithoutExcuse(before);
        var k: nat :| ExcusedAt(before, k);
        ExcuseLasts(events, k);
      }
    }
  }

  lemma {:induction false} LastStepIsIdle(events: seq<Event>)
    requires events != [] && Idle(Run(events))
    ensures var before := events[..|events| - 1];
      Run(events).serial == Run(before).serial && (Idle(Run(before)) || ExcusedAt(events, |events| - 1))
  {
    var before, e := events[..|events| - 1], events[|events| - 1];
    assert Run(events) == Step(Run(before), e);
    hide Inv, Idle, Step, Run, Excuses;
    RunKeeps(before);
    TimerNeedsPanel(before);
    IdleStep(Run(before), e);
    assert events[..|events|] == events;
  }

  lemma {:induction false} ExcuseLasts(events: seq<Event>, k: nat)
    requires events != [] && ExcusedAt(events[..|events| - 1], k)
    requires Run(events).serial == Run(events[..|events| - 1]).serial
    ensures ExcusedAt(events, k)
  {
    hide Run, Excuses;
    var before := events[..|events| - 1];
    assert before[..k] == events[..k] && before[..k + 1] == events[..k + 1];
  }

  /** The module's variables, and what the editor and the server hold. */
  class Preview {
    var docs: map<Uri, Doc>
    var active: Option<Uri>
    var client: bool
    var panel: Option<nat>
    var lives: nat
    var requestSerial: nat
    var renderedDocument: Option<Snapshot>
    var debounceTimer: bool
    var inFlight: set<Request>
    var painted: seq<Paint>
    var revealed: seq<Snapshot>

    ghost function View(): (s: State)
      reads this
    {
      State(docs, active, client, panel, lives, requestSerial, renderedDocument, debounceTimer,
            inFlight, painted, revealed)
    }

    constructor ()
      ensures View() == InitialState
    {
      docs, active, client := map[], None, false;
      panel, lives, requestSerial, renderedDocument, debounceTimer := None, 0, 0, None, false;
      inFlight, painted, revealed := {}, [], [];
    }

    method RunTkPreview(document: Uri)
      requires panel.Some?
      modifies this
      ensures View() ==
                if old(client) then
                  var s := old(View());
                  s.(serial := s.serial + 1,
                     inFlight := s.inFlight + {Request(s.serial + 1, Current(s, document), s.panel.value)})
                else Withdraw(old(View()))
    {
      if !client {
        requestSerial := requestSerial + 1;
        renderedDocument := None;
        return;
      }
      var version := DocAt(docs, document).version;
      requestSerial := requestSerial + 1;
      inFlight := inFlight + {Request(requestSerial, Snapshot(document, version), panel.value)};
    }

    method RefreshPreview()
      modifies this
      ensures View() == Refresh(old(View()))
    {
      if panel.None? {
        return;
      }
      if active.None? || !DocAt(docs, active.value).tcl {
        requestSerial := requestSerial + 1;
        renderedDocument := None;
        return;
      }
      RunTkPreview(active.value);
    }

    method OpenTkPreview()
      modifies this
      ensures View() == OpenPanel(old(View()))
    {
      if panel.None? {
        panel := Some(lives);
        lives := lives + 1;
      }
      RefreshPreview();
    }

    method OnDidDispose()
      modifies this
      ensures View() == DisposePanel(old(View()))
    {
      if panel.None? {
        return;
      }
      panel := None;
      renderedDocument := None;
      requestSerial := requestSerial + 1;
      debounceTimer := false;
    }

    method ActiveEditorChanges(to: Option<Uri>)
      modifies this
      ensures View() == EditorChanged(old(View()).(active := to))
    {
      active := to;
      if panel.None? {
        return;
      }
      requestSerial := requestSerial + 1;
      renderedDocument := None;
      RefreshPreview();
    }

    method DocumentChanges(uri: Uri)
      modifies this
      ensures View() == Edited(old(View()), uri)
    {
      var d := DocAt(docs, uri);
      docs := docs[uri := d.(version := d.version + 1)];
      if active != Some(uri) {
        return;
      }
      if !d.tcl {
        return;
      }
      if panel.None? {
        return;
      }
      requestSerial := requestSerial + 1;
      renderedDocument := None;
      debounceTimer := true;
    }

    method DebounceFires()
      requires debounceTimer
      modifies this
      ensures View() == Refresh(old(View()).(timer := false))
    {
      debounceTimer := false;
      RefreshPreview();
    }

    /** The code after the awaited request. */
    method OnReply(q: Request, reply: Reply)
      requires q in inFlight
      modifies this
      ensures View() == Answered(old(View()), q, reply)
    {
      inFlight := inFlight - {q};
      if panel.None? || q.serial != requestSerial || !reply.Model? {
        return;
      }
      if active.None? || active.value != q.asked.uri || DocAt(docs, active.value).version != q.asked.version {
        return;
      }
      if reply.schema != 1 || reply.of != q.asked {
        return;
      }
      renderedDocument := Some(q.asked);
      painted := painted + [Paint(q.serial, q.life, panel.value, reply.of, q.asked)];
    }

    /** The code of `revealSource` after the document is open. */
    method OnRevealOpened(clicked: Snapshot)
      modifies this
      ensures View() == RevealFinished(old(View()), clicked)
    {
      if renderedDocument != Some(clicked) || DocAt(docs, clicked.uri).version != clicked.version {
        RefreshPreview();
        return;
      }
      revealed := revealed + [clicked];
    }
  }
}
