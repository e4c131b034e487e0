/** One iteration of the observe loop over a pane listing. */
module EventLoop {
  import opened Wrappers
  import opened Text
  import opened TailHistory
  import opened Pressure
  import opened Lifecycle
  import opened PaneTick
  import Snap = AutoSnapshot

  // ----- What a run looks like to one pane -----

  /** The rows of a listing that are about pane `p`. */
  ghost function Rows(now: Instant, cfg: Config, listing: seq<Entry>, p: PaneId): seq<Event> {
    if listing == [] then []
    else
      var last := listing[|listing| - 1];
      Rows(now, cfg, listing[..|listing| - 1], p) + if last.id == p then [Listed(now, cfg, last)] else []
  }

  ghost predicate IsListed(listing: seq<Entry>, p: PaneId) {
    exists i :: 0 <= i < |listing| && listing[i].id == p
  }

  lemma ListedBefore(listing: seq<Entry>, p: PaneId)
    requires listing != []
    ensures IsListed(listing, p) <==> IsListed(listing[..|listing| - 1], p) || listing[|listing| - 1].id == p
  {
    var init := listing[..|listing| - 1];
    assert forall i :: 0 <= i < |init| ==> init[i] == listing[i];
  }

  lemma {:induction false} UnlistedHasNoRows(now: Instant, cfg: Config, listing: seq<Entry>, p: PaneId)
    ensures Rows(now, cfg, listing, p) == [] <==> !IsListed(listing, p)
  {
    if listing != [] {
      var init, last := listing[..|listing| - 1], listing[|listing| - 1];
      UnlistedHasNoRows(now, cfg, init, p);
      ListedBefore(listing, p);
    }
  }

  ghost function EventsOf(now: Instant, cfg: Config, listing: seq<Entry>, p: PaneId): seq<Event> {
    if IsListed(listing, p) then Rows(now, cfg, listing, p) else [Gone]
  }

  /** A polling tick, or an operator's runtime refresh that captured a tail between two ticks. */
  datatype Input = Poll(now: Instant, cfg: Config, listing: seq<Entry>) | Refresh(id: PaneId, text: string)

  /** What an input looks like to pane `p`. */
  ghost function InputEvents(input: Input, p: PaneId): seq<Event> {
    match input
    case Poll(now, cfg, listing) => EventsOf(now, cfg, listing, p)
    case Refresh(id, text) => if id == p then [Captured(text)] else []
  }

  ghost function Project(run: seq<Input>, p: PaneId): seq<Event> {
    if run == [] then []
    else
      Project(run[..|run| - 1], p) + InputEvents(run[|run| - 1], p)
  }

  lemma {:induction false} FoldConcat(s: PaneState, a: seq<Event>, b: seq<Event>)
    ensures Fold(s, a + b) == Fold(Fold(s, a), b)
  {
    hide Step;
    if b == [] {
      assert a + b == a;
    } else {
      FoldConcat(s, a, b[..|b| - 1]);
      assert (a + b)[..|a + b| - 1] == a + b[..|b| - 1];
    }
  }

  lemma ProjectStart(run: seq<Input>)
    ensures forall s, p :: Fold(s, Project(run[..0], p)) == s
  {
  }

  lemma ProjectStep(s: PaneState, run: seq<Input>, i: nat, p: PaneId)
    requires i < |run|
    ensures Fold(s, Project(run[..i + 1], p)) == Fold(Fold(s, Project(run[..i], p)), InputEvents(run[i], p))
  {
    hide Fold, InputEvents;
    assert run[..i + 1][..i] == run[..i];
    FoldConcat(s, Project(run[..i], p), InputEvents(run[i], p));
  }

  lemma FoldSmall()
    ensures forall s :: Fold(s, []) == s
    ensures forall s, ev :: Fold(s, [ev]) == Step(s, ev)
  {
    hide Step;
    assert forall ev: Event :: [ev][..0] == [];
  }

  /** After any run that ends with a tick, the pane counts as alive exactly when its last row in that
      tick's listing was alive. */
  lemma AliveIsListedAlive(run: seq<Input>, now: Instant, cfg: Config, listing: seq<Entry>, p: PaneId)
    ensures Alive(Project(run + [Poll(now, cfg, listing)], p))
       <==> exists i :: 0 <= i < |listing| && listing[i].id == p && !listing[i].dead
                        && forall j :: i < j < |listing| ==> listing[j].id != p
  {
    assert (run + [Poll(now, cfg, listing)])[..|run|] == run;
    UnlistedHasNoRows(now, cfg, listing, p);
    var before := Project(run, p);
    if IsListed(listing, p) {
      var i := LastRow(now, cfg, listing, p);
      var rows := Rows(now, cfg, listing, p);
      assert (before + rows)[|before + rows| - 1] == rows[|rows| - 1];
    }
  }

  lemma {:induction false} LastRow(now: Instant, cfg: Config, listing: seq<Entry>, p: PaneId) returns (i: nat)
    requires IsListed(listing, p)
    ensures i < |listing| && listing[i].id == p && forall j :: i < j < |listing| ==> listing[j].id != p
    ensures var rows := Rows(now, cfg, listing, p); rows != [] && rows[|rows| - 1] == Listed(now, cfg, listing[i])
  {
    var n := |listing| - 1;
    if listing[n].id == p {
      i := n;
    } else {
      var k :| 0 <= k < |listing| && listing[k].id == p;
      assert listing[..n][k].id == p;
      i := LastRow(now, cfg, listing[..n], p);
      assert Rows(now, cfg, listing[..n], p) + [] == Rows(now, cfg, listing[..n], p);
    }
  }

  /** What the loop reports for one row. `recentErrors` is the window handed to the policy. */
  datatype Report =
    | DeadPane(id: PaneId)
    | LivePane(
        id: PaneId,
        idle: Option<IdleCause>,
        enteredAt: Option<Instant>,
        recentErrors: seq<bool>,
        pressures: Pressures)

  /** Everything one row produces: the report, the notices and the audit rows of automatic snapshots. */
  datatype Outcome = Outcome(report: Report, notices: seq<Snap.Notice>, audits: seq<Snap.AuditRow>)

  ghost function LiveOutcome(id: PaneId, before: Caches, t: Tick): Outcome {
    var after := StepAlive(before, t);
    var log := if TakesSnapshots(t) then SnapshotLog(before.dedup, t) else [];
    Outcome(
      LivePane(id, after.idle.value, after.enteredAt, after.errors.value,
               Applied(before.pressure, t.facts.provider, t.facts.pressures).1),
      Snap.Notices(log),
      Snap.Audits(log))
  }

  /** Automatic snapshots are opt-in, and never taken for a provider that is only observed. */
  lemma SnapshotsAreOptIn(id: PaneId, before: Caches, t: Tick)
    ensures var out, dedup := LiveOutcome(id, before, t), StepAlive(before, t).dedup;
            if t.cfg.autoSnapshot && t.facts.provider != Antigravity then
              var start := if before.dedup.Some? then before.dedup.value else Snap.Dedup(None, None);
              var log := Snap.Attempts(start, [], t.facts.recs, t.facts.resets);
              && out.notices == Snap.Notices(log) && out.audits == Snap.Audits(log)
              && dedup == Some(Snap.DedupAfter(start, log))
            else out.notices == [] && out.audits == [] && dedup == before.dedup
  {
    hide Snap.Attempts, Snap.DedupAfter, IdleCauseOf, PushTail, PushError, Entered, Applied;
  }

  ghost function OutcomeOf(s: PaneState, now: Instant, cfg: Config, e: Entry): Outcome {
    if e.dead then Outcome(DeadPane(e.id), [], [])
    else LiveOutcome(e.id, if IsReset(s.seen, e.dead) then EMPTY else s.caches, TickOf(s, now, cfg, e))
  }

  /** The report that a lifetime calls for. */
  ghost function LifeReport(id: PaneId, life: seq<Tick>): Report
    requires life != []
  {
    LivePane(id, CauseAt(life, |life| - 1), FoldAlive(life).enteredAt, ErrorsAfter(life), Reported(Readings(life)))
  }

  /** A live pane is reported from its current lifetime alone: the idle cause of its last tick, the start
      of the run of that cause, the newest error hints, and the pressures of its readings. */
  lemma LiveReportIsOfLifetime(evs: seq<Event>, now: Instant, cfg: Config, e: Entry)
    requires !e.dead
    ensures var life := Lifetime(evs + [Listed(now, cfg, e)]);
            && life != []
            && OutcomeOf(Fold(NEVER_SEEN, evs), now, cfg, e).report == LifeReport(e.id, life)
  {
    hide Fold, Lifetime, StepAlive, CauseAt, ErrorsAfter, Applied, TickOf, Alive;
    var s, life := Fold(NEVER_SEEN, evs), Lifetime(evs + [Listed(now, cfg, e)]);
    StateIsOfLifetime(evs, now, cfg, e);
    ReportOfTicks(e.id, life);
  }

  /** Earlier lives leave no trace in the memory modelled here: two histories without a difference in the pending
      overlay at the start of the lifetime, and with the same facts read off the same tails, give the same report,
      notices and audit rows at every later row. */
  lemma EarlierLivesAreForgotten(a: seq<Event>, b: seq<Event>, start: Event, c: seq<Event>, now: Instant,
                                 cfg: Config, e: Entry)
    requires Down(a) && Down(b) && start.Listed? && StaysAlive([start] + c)
    requires Fold(NEVER_SEEN, a).overlay == Fold(NEVER_SEEN, b).overlay
    ensures OutcomeOf(Fold(NEVER_SEEN, a + [start] + c), now, cfg, e)
         == OutcomeOf(Fold(NEVER_SEEN, b + [start] + c), now, cfg, e)
  {
    hide OutcomeOf, Fold, Down;
    assert ([start] + c)[0] == start;
    assert forall i :: 0 <= i < |c| ==> c[i] == ([start] + c)[i + 1];
    OnlyFirstTickLeaks(a, b, start.now, start.cfg, start.entry, c);
  }

  lemma StateIsOfLifetime(evs: seq<Event>, now: Instant, cfg: Config, e: Entry)
    requires !e.dead
    ensures var s := Fold(NEVER_SEEN, evs);
            && Lifetime(evs + [Listed(now, cfg, e)]) == Lifetime(evs) + [TickOf(s, now, cfg, e)]
            && FoldAlive(Lifetime(evs)) == if IsReset(s.seen, e.dead) then EMPTY else s.caches
  {
    hide StepAlive, TickOf;
    assert (evs + [Listed(now, cfg, e)])[..|evs|] == evs;
    FlagIsAlive(evs);
    if Alive(evs) {
      CachesHoldOneLifetime(evs);
    }
  }

  lemma ReportOfTicks(id: PaneId, life: seq<Tick>)
    requires life != []
    ensures LiveOutcome(id, FoldAlive(life[..|life| - 1]), life[|life| - 1]).report
         == LifeReport(id, life)
  {
    hide CauseAt, ErrorsAfter, Applied, StepAlive;
    CauseIsRemembered(life);
    ErrorsAreRemembered(life);
    PressureIsOfLifetime(life[..|life| - 1]);
    assert Readings(life)[..|life| - 1] == Readings(life[..|life| - 1]);
  }

  /** The outcome of row `i`, from the state its own earlier rows left. */
  ghost function RowOutcome(start: PaneState, now: Instant, cfg: Config, listing: seq<Entry>, i: nat): Outcome
    requires i < |listing|
  {
    OutcomeOf(Fold(start, Rows(now, cfg, listing[..i], listing[i].id)), now, cfg, listing[i])
  }

  function ListingOf(input: Input): seq<Entry> {
    if input.Poll? then input.listing else []
  }

  ghost function InputOutcome(start: PaneState, input: Input, j: nat): Outcome
    requires j < |ListingOf(input)|
  {
    RowOutcome(start, input.now, input.cfg, input.listing, j)
  }

  function RowEvent(input: Input, j: nat): Event
    requires j < |ListingOf(input)|
  {
    Listed(input.now, input.cfg, input.listing[j])
  }

  /** What the pane of row `j` of input `i` has seen before that row. */
  ghost function Before(run: seq<Input>, i: nat, j: nat): seq<Event>
    requires i < |run| && j < |ListingOf(run[i])|
  {
    var id := run[i].listing[j].id;
    Project(run[..i], id) + Rows(run[i].now, run[i].cfg, run[i].listing[..j], id)
  }

  /** Every row of the run produced what the events of its pane call for. */
  ghost predicate OutcomesOf(run: seq<Input>, outs: seq<seq<Outcome>>) {
    && |outs| == |run|
    && (forall i :: 0 <= i < |run| ==> |outs[i]| == |ListingOf(run[i])|)
    && forall i, j :: 0 <= i < |run| && 0 <= j < |ListingOf(run[i])| ==>
          outs[i][j] == OutcomeOf(Fold(NEVER_SEEN, Before(run, i, j)), run[i].now, run[i].cfg, run[i].listing[j])
  }

  lemma RowsStart(now: Instant, cfg: Config, listing: seq<Entry>)
    ensures forall s, p :: Fold(s, Rows(now, cfg, listing[..0], p)) == s
  {
  }

  lemma RowsStep(s: PaneState, now: Instant, cfg: Config, listing: seq<Entry>, i: nat, p: PaneId)
    requires i < |listing|
    ensures Fold(s, Rows(now, cfg, listing[..i + 1], p))
         == if listing[i].id == p then StepListed(Fold(s, Rows(now, cfg, listing[..i], p)), now, cfg, listing[i])
            else Fold(s, Rows(now, cfg, listing[..i], p))
  {
    hide StepListed;
    assert listing[..i + 1][..i] == listing[..i];
    var rows := Rows(now, cfg, listing[..i], p);
    assert (rows + [Listed(now, cfg, listing[i])])[..|rows|] == rows;
    assert rows + [] == rows;
  }

  lemma EventsFold(s: PaneState, now: Instant, cfg: Config, listing: seq<Entry>, p: PaneId)
    ensures IsListed(listing, p) ==> Fold(s, EventsOf(now, cfg, listing, p)) == Fold(s, Rows(now, cfg, listing, p))
    ensures !IsListed(listing, p) ==>
              && Fold(s, EventsOf(now, cfg, listing, p))
                 == Fold(Step(s, Gone), Rows(now, cfg, listing, p)) == Step(s, Gone)
              && Step(s, Gone).seen != Some(false)
  {
    UnlistedHasNoRows(now, cfg, listing, p);
    assert [Gone][..0] == [];
  }

  function Ids(listing: seq<Entry>): (ids: seq<PaneId>)
    ensures |ids| == |listing|
  {
    seq(|listing|, i requires 0 <= i < |listing| => listing[i].id)
  }

  lemma IdsAreListed(listing: seq<Entry>, p: PaneId)
    ensures p in Ids(listing) <==> IsListed(listing, p)
  {
    if IsListed(listing, p) {
      var i :| 0 <= i < |listing| && listing[i].id == p;
      assert Ids(listing)[i] == p;
    }
  }

  ghost function Lookup<V>(m: map<PaneId, V>, id: PaneId): Option<V> {
    if id in m then Some(m[id]) else None
  }

  class Context {
    const lifecycle: PaneLifecycle
    var knownPaneIds: seq<PaneId>
    var tailHistory: map<PaneId, PaneTailHistory>
    var idleTransition: map<PaneId, Option<IdleCause>>
    var idleEnteredAt: map<PaneId, Instant>
    var pressureMetricCache: map<PaneId, Cache>
    var runtimeRefreshTailOverlays: map<PaneId, string>
    var recentErrorObservations: map<PaneId, seq<bool>>
    var autoSnapshotDedup: map<PaneId, Snap.Dedup>

    ghost function Histories(): set<PaneTailHistory>
      reads this
    {
      set id | id in tailHistory :: tailHistory[id]
    }

    /** Every history is well formed and belongs to one pane. */
    ghost predicate Valid()
      reads this, Histories()
    {
      && (forall id :: id in tailHistory ==> tailHistory[id].Valid())
      && forall a, b :: a in tailHistory && b in tailHistory && a != b ==> tailHistory[a] != tailHistory[b]
    }

    ghost function HistoryOf(id: PaneId): Option<History>
      reads this, Histories()
    {
      if id in tailHistory then Some(History(tailHistory[id].snapshots, tailHistory[id].capacity)) else None
    }

    /** Everything remembered about one pane. */
    ghost function Pane(id: PaneId): PaneState
      reads this, lifecycle, Histories()
    {
      PaneState(
        Lookup(lifecycle.seen, id),
        Lookup(runtimeRefreshTailOverlays, id),
        Caches(
          HistoryOf(id),
          Lookup(idleTransition, id),
          Lookup(idleEnteredAt, id),
          Lookup(recentErrorObservations, id),
          Lookup(pressureMetricCache, id),
          Lookup(autoSnapshotDedup, id)))
    }

    /** Between ticks, the panes flagged alive are among the known ids. */
    ghost predicate KnowsAlive()
      reads this, lifecycle
    {
      forall id :: id in lifecycle.seen && !lifecycle.seen[id] ==> id in knownPaneIds
    }

    constructor ()
      ensures Valid() && KnowsAlive() && fresh(lifecycle) && Histories() == {}
      ensures forall p :: Pane(p) == NEVER_SEEN
    {
      lifecycle := new PaneLifecycle();
      knownPaneIds := [];
      tailHistory, idleTransition, idleEnteredAt, pressureMetricCache := map[], map[], map[], map[];
      runtimeRefreshTailOverlays, recentErrorObservations, autoSnapshotDedup := map[], map[], map[];
    }

    /** The overlay is merged into the tail, and dropped unless it is of the persisting kind. */
    method TakeOverlay(id: PaneId, tail: string) returns (parseTail: string)
      requires Valid()
      modifies this`runtimeRefreshTailOverlays
      ensures Valid() && Histories() == old(Histories())
      ensures var o := old(Pane(id)).overlay;
              && parseTail == ParseTail(o, tail)
              && Pane(id) == old(Pane(id)).(overlay := if o.Some? && !Persists(o.value) then None else o)
      ensures forall q :: q != id ==> Pane(q) == old(Pane(q))
    {
      hide MergeTail, Persists;
      parseTail := tail;
      if id in runtimeRefreshTailOverlays {
        var overlay := runtimeRefreshTailOverlays[id];
        parseTail := MergeTail(tail, overlay);
        if !Persists(overlay) {
          runtimeRefreshTailOverlays := runtimeRefreshTailOverlays - {id};
        }
      }
    }

    method ObserveLifecycle(id: PaneId, dead: bool) returns (lc: LifecycleEvent)
      requires Valid()
      modifies lifecycle
      ensures Valid() && Histories() == old(Histories())
      ensures lc == BecameDead || lc == Reappeared <==> IsReset(old(Pane(id)).seen, dead)
      ensures Pane(id) == old(Pane(id)).(seen := Some(dead))
      ensures forall q :: q != id ==> Pane(q) == old(Pane(q))
    {
      lc := lifecycle.Observe(id, dead);
    }

    /** Drops every cache of a pane that died or is back. */
    method ResetPane(id: PaneId)
      requires Valid()
      modifies this`tailHistory, this`idleTransition, this`idleEnteredAt, this`pressureMetricCache,
               this`runtimeRefreshTailOverlays, this`recentErrorObservations, this`autoSnapshotDedup
      ensures Valid() && Histories() <= old(Histories())
      ensures Pane(id) == old(Pane(id)).(overlay := None, caches := EMPTY)
      ensures forall q :: q != id ==> Pane(q) == old(Pane(q))
    {
      tailHistory := tailHistory - {id};
      idleTransition := idleTransition - {id};
      idleEnteredAt := idleEnteredAt - {id};
      pressureMetricCache := pressureMetricCache - {id};
      runtimeRefreshTailOverlays := runtimeRefreshTailOverlays - {id};
      recentErrorObservations := recentErrorObservations - {id};
      autoSnapshotDedup := autoSnapshotDedup - {id};
    }

    /** Pushes the parse tail onto the pane's history, which is created on first use. */
    method RecordTail(id: PaneId, t: Tick) returns (h: PaneTailHistory)
      requires Valid()
      modifies this`tailHistory, Histories()
      ensures Valid() && fresh(Histories() - old(Histories()))
      ensures var c := old(Pane(id)).caches;
              && History(h.snapshots, h.capacity) == PushTail(c.history, t)
              && Pane(id) == old(Pane(id)).(caches := c.(history := Some(PushTail(c.history, t))))
      ensures forall q :: q != id ==> Pane(q) == old(Pane(q))
    {
      if id !in tailHistory {
        h := new PaneTailHistory(t.cfg.stillnessPolls);
        tailHistory := tailHistory[id := h];
      } else {
        h := tailHistory[id];
      }
      h.Push(t.tail);
    }

    /** Keeps the pressures of a Claude pane. */
    method RecordPressures(id: PaneId, provider: Provider, signals: Pressures) returns (reported: Pressures)
      requires Valid()
      modifies this`pressureMetricCache
      ensures Valid() && Histories() == old(Histories())
      ensures var (cache, filled) := Applied(old(Pane(id)).caches.pressure, provider, signals);
              Pane(id) == old(Pane(id)).(caches := old(Pane(id)).caches.(pressure := cache)) && reported == filled
      ensures forall q :: q != id ==> Pane(q) == old(Pane(q))
    {
      hide Applied;
      var entry := if id in pressureMetricCache then Some(pressureMetricCache[id]) else None;
      var newEntry;
      newEntry, reported := ApplyPressureMetricCache(entry, provider, signals);
      match newEntry {
        case Some(cache) => pressureMetricCache := pressureMetricCache[id := cache];
        case None => pressureMetricCache := pressureMetricCache - {id};
      }
    }

    /** Pushes the error hint to the front of the window and drops the oldest beyond the cap. */
    method RecordError(id: PaneId, t: Tick) returns (recentErrors: seq<bool>)
      requires Valid()
      modifies this`recentErrorObservations
      ensures Valid() && Histories() == old(Histories())
      ensures recentErrors == PushError(OrEmpty(old(Pane(id)).caches.errors), t)
      ensures Pane(id) == old(Pane(id)).(caches := old(Pane(id)).caches.(errors := Some(recentErrors)))
      ensures forall q :: q != id ==> Pane(q) == old(Pane(q))
    {
      recentErrors := [t.facts.errorHint] + if id in recentErrorObservations then recentErrorObservations[id] else [];
      ghost var all := recentErrors;
      while |recentErrors| > ErrorCap(t)
        invariant recentErrors <= all
        invariant |recentErrors| >= ErrorCap(t) || recentErrors == all
      {
        recentErrors := recentErrors[..|recentErrors| - 1];
      }
      recentErrorObservations := recentErrorObservations[id := recentErrors];
    }

    /** Updates the idle entry time on a change of cause only. */
    method RecordIdle(id: PaneId, cause: Option<IdleCause>, now: Instant) returns (enteredAt: Option<Instant>)
      requires Valid()
      modifies this`idleTransition, this`idleEnteredAt
      ensures Valid() && Histories() == old(Histories())
      ensures var c := old(Pane(id)).caches;
              && enteredAt == Entered(LastCause(c.idle), cause, c.enteredAt, now)
              && Pane(id) == old(Pane(id)).(caches := c.(idle := Some(cause), enteredAt := enteredAt))
      ensures forall q :: q != id ==> Pane(q) == old(Pane(q))
    {
      var lastIdle := if id in idleTransition then idleTransition[id] else None;
      match (lastIdle, cause) {
        case (None, Some(_)) =>
          idleEnteredAt := idleEnteredAt[id := now];
        case (Some(a), Some(b)) =>
          if a != b {
            idleEnteredAt := idleEnteredAt[id := now];
          }
        case (Some(_), None) =>
          idleEnteredAt := idleEnteredAt - {id};
        case (None, None) =>
      }
      idleTransition := idleTransition[id := cause];
      enteredAt := if id in idleEnteredAt then Some(idleEnteredAt[id]) else None;
    }

    /** Acts on the snapshot recommendations of the tick when the operator opted in. */
    method RecordSnapshots(id: PaneId, t: Tick) returns (notices: seq<Snap.Notice>, audits: seq<Snap.AuditRow>)
      requires Valid()
      modifies this`autoSnapshotDedup
      ensures Valid() && Histories() == old(Histories())
      ensures var c := old(Pane(id)).caches;
              Pane(id) == old(Pane(id)).(caches := c.(dedup := SnapshotDedup(c.dedup, t)))
      ensures forall q :: q != id ==> Pane(q) == old(Pane(q))
      ensures var log := if TakesSnapshots(t) then SnapshotLog(old(Pane(id)).caches.dedup, t) else [];
              notices == Snap.Notices(log) && audits == Snap.Audits(log)
    {
      hide Snap.Attempts, Snap.DedupAfter;
      notices, audits := [], [];
      if TakesSnapshots(t) {
        var dedup := if id in autoSnapshotDedup then autoSnapshotDedup[id] else Snap.NO_SNAPSHOT;
        dedup, notices, audits := Snap.MaybeAutoSnapshot(t.facts.recs, true, t.facts.resets, dedup);
        autoSnapshotDedup := autoSnapshotDedup[id := dedup];
      }
    }

    /** The part of the loop body that runs for live panes. */
    method TickLive(id: PaneId, t: Tick) returns (out: Outcome)
      requires Valid()
      modifies this`tailHistory, this`idleTransition, this`idleEnteredAt, this`pressureMetricCache,
               this`recentErrorObservations, this`autoSnapshotDedup, Histories()
      ensures Valid() && fresh(Histories() - old(Histories()))
      ensures Pane(id) == old(Pane(id)).(caches := StepAlive(old(Pane(id)).caches, t))
      ensures forall q :: q != id ==> Pane(q) == old(Pane(q))
      ensures out == LiveOutcome(id, old(Pane(id)).caches, t)
    {
      hide IdleCauseOf, PushTail, PushError, Entered, Applied, SnapshotDedup, SnapshotLog;
      var history := RecordTail(id, t);
      var cause := ClassifyIdle(t.facts, history);
      var pressures := RecordPressures(id, t.facts.provider, t.facts.pressures);
      var recentErrors := RecordError(id, t);
      var enteredAt := RecordIdle(id, cause, t.now);
      var notices, audits := RecordSnapshots(id, t);
      out := Outcome(LivePane(id, cause, enteredAt, recentErrors, pressures), notices, audits);
    }

    /** The loop body: one row of the listing. */
    method ObservePane(now: Instant, cfg: Config, e: Entry) returns (out: Outcome)
      requires Valid()
      modifies this, lifecycle, Histories()
      ensures Valid() && fresh(Histories() - old(Histories()))
      ensures knownPaneIds == old(knownPaneIds)
      ensures Pane(e.id) == StepListed(old(Pane(e.id)), now, cfg, e)
      ensures forall q :: q != e.id ==> Pane(q) == old(Pane(q))
      ensures out == OutcomeOf(old(Pane(e.id)), now, cfg, e)
    {
      hide StepAlive, LiveOutcome, Persists, ParseTail;
      var parseTail := TakeOverlay(e.id, e.tail);
      var t := Tick(now, cfg, parseTail, e.facts(parseTail));
      var lc := ObserveLifecycle(e.id, e.dead);
      if lc == BecameDead || lc == Reappeared {
        ResetPane(e.id);
      }
      if e.dead {
        out := Outcome(DeadPane(e.id), [], []);
      } else {
        out := TickLive(e.id, t);
      }
    }

    /** Marks the panes that left the listing as dead. */
    method ForgetMissing(currentIds: seq<PaneId>)
      requires Valid() && KnowsAlive()
      modifies lifecycle
      ensures Valid() && Histories() == old(Histories())
      ensures forall p :: Pane(p) == if p in currentIds then old(Pane(p)) else Step(old(Pane(p)), Gone)
    {
      ghost var before := lifecycle.seen;
      for i := 0 to |knownPaneIds|
        invariant lifecycle.seen.Keys == before.Keys
        invariant forall p :: p in before ==>
          lifecycle.seen[p] == if p in knownPaneIds[..i] && p !in currentIds then true else before[p]
      {
        if knownPaneIds[i] !in currentIds {
          var _ := lifecycle.Forget(knownPaneIds[i]);
        }
      }
      assert knownPaneIds[..|knownPaneIds|] == knownPaneIds;
    }

    /** The loop over the rows of a listing. */
    method ObserveAll(now: Instant, cfg: Config, listing: seq<Entry>) returns (outs: seq<Outcome>)
      requires Valid()
      modifies this, lifecycle, Histories()
      ensures Valid() && fresh(Histories() - old(Histories())) && knownPaneIds == old(knownPaneIds)
      ensures forall p :: Pane(p) == Fold(old(Pane(p)), Rows(now, cfg, listing, p))
      ensures |outs| == |listing|
      ensures forall i :: 0 <= i < |listing| ==> outs[i] == RowOutcome(old(Pane(listing[i].id)), now, cfg, listing, i)
    {
      hide StepListed, OutcomeOf, Rows, Fold;
      RowsStart(now, cfg, listing);
      outs := [];
      for i := 0 to |listing|
        invariant Valid() && fresh(Histories() - old(Histories())) && knownPaneIds == old(knownPaneIds)
        invariant forall p :: Pane(p) == Fold(old(Pane(p)), Rows(now, cfg, listing[..i], p))
        invariant |outs| == i
        invariant forall j :: 0 <= j < i ==> outs[j] == RowOutcome(old(Pane(listing[j].id)), now, cfg, listing, j)
      {
        var out := ObservePane(now, cfg, listing[i]);
        outs := outs + [out];
        forall p
          ensures Pane(p) == Fold(old(Pane(p)), Rows(now, cfg, listing[..i + 1], p))
        {
          RowsStep(old(Pane(p)), now, cfg, listing, i, p);
        }
      }
      assert listing[..|listing|] == listing;
    }

    /** `run_once_with_target`: every pane's memory moves by exactly the events the listing holds for
        it, and each row is reported from the state its own earlier rows left. */
    method RunOnce(now: Instant, cfg: Config, listing: seq<Entry>) returns (outs: seq<Outcome>)
      requires Valid() && KnowsAlive()
      modifies this, lifecycle, Histories()
      ensures Valid() && KnowsAlive() && fresh(Histories() - old(Histories()))
      ensures knownPaneIds == Ids(listing)
      ensures forall p :: Pane(p) == Fold(old(Pane(p)), EventsOf(now, cfg, listing, p))
      ensures |outs| == |listing|
      ensures forall i :: 0 <= i < |listing| ==> outs[i] == RowOutcome(old(Pane(listing[i].id)), now, cfg, listing, i)
    {
      hide StepListed, RowOutcome, Rows, Fold, EventsOf, Step;
      var currentIds := Ids(listing);
      ForgetMissing(currentIds);
      knownPaneIds := currentIds;
      label Forgotten:
      outs := ObserveAll(now, cfg, listing);
      forall p
        ensures Pane(p) == Fold(old(Pane(p)), EventsOf(now, cfg, listing, p))
        ensures p !in currentIds ==> Pane(p).seen != Some(false)
      {
        IdsAreListed(listing, p);
        EventsFold(old(Pane(p)), now, cfg, listing, p);
      }
      forall i | 0 <= i < |listing|
        ensures listing[i].id in currentIds
      {
        assert currentIds[i] == listing[i].id;
      }
      assert forall p :: p in lifecycle.seen && !lifecycle.seen[p] ==> Pane(p).seen == Some(false);
    }

    /** `send_runtime_refresh_commands` keeps a captured tail that is not blank. */
    method CaptureRefresh(id: PaneId, text: string)
      requires Valid() && KnowsAlive()
      modifies this`runtimeRefreshTailOverlays
      ensures Valid() && KnowsAlive() && Histories() == old(Histories())
      ensures Pane(id) == Step(old(Pane(id)), Captured(text))
      ensures forall q :: q != id ==> Pane(q) == old(Pane(q))
    {
      if !Blank(text) {
        runtimeRefreshTailOverlays := runtimeRefreshTailOverlays[id := text];
      }
    }

    /** A tick, or a refresh between two ticks. */
    method RunInput(input: Input) returns (out: seq<Outcome>)
      requires Valid() && KnowsAlive()
      modifies this, lifecycle, Histories()
      ensures Valid() && KnowsAlive() && fresh(Histories() - old(Histories()))
      ensures forall p :: Pane(p) == Fold(old(Pane(p)), InputEvents(input, p))
      ensures |out| == |ListingOf(input)|
      ensures forall j :: 0 <= j < |out| ==> out[j] == InputOutcome(old(Pane(input.listing[j].id)), input, j)
    {
      hide Fold, EventsOf, RowOutcome;
      out := [];
      match input {
        case Poll(now, cfg, listing) => out := RunOnce(now, cfg, listing);
        case Refresh(id, text) => CaptureRefresh(id, text);
      }
      FoldSmall();
    }

    /** Any run of ticks and refreshes: each pane's memory depends on its own events only, and so does what every
        row of every listing produces. */
    method Run(run: seq<Input>) returns (outs: seq<seq<Outcome>>)
      requires Valid() && KnowsAlive()
      modifies this, lifecycle, Histories()
      ensures Valid() && KnowsAlive() && fresh(Histories() - old(Histories()))
      ensures forall p :: Pane(p) == Fold(old(Pane(p)), Project(run, p))
      ensures |outs| == |run|
      ensures forall i :: 0 <= i < |run| ==> |outs[i]| == |ListingOf(run[i])|
      ensures forall i, j :: 0 <= i < |run| && 0 <= j < |ListingOf(run[i])| ==>
                var id := run[i].listing[j].id;
                outs[i][j] == InputOutcome(Fold(old(Pane(id)), Project(run[..i], id)), run[i], j)
    {
      hide Fold, Project, InputEvents, InputOutcome, Pane, Valid, KnowsAlive;
      ProjectStart(run);
      outs := [];
      for i := 0 to |run|
        invariant Valid() && KnowsAlive() && fresh(Histories() - old(Histories()))
        invariant forall p :: Pane(p) == Fold(old(Pane(p)), Project(run[..i], p))
        invariant |outs| == i
        invariant forall k :: 0 <= k < i ==> |outs[k]| == |ListingOf(run[k])|
        invariant forall k, j :: 0 <= k < i && 0 <= j < |ListingOf(run[k])| ==>
          var id := run[k].listing[j].id;
          outs[k][j] == InputOutcome(Fold(old(Pane(id)), Project(run[..k], id)), run[k], j)
      {
        var out := RunInput(run[i]);
        outs := outs + [out];
        forall p
          ensures Pane(p) == Fold(old(Pane(p)), Project(run[..i + 1], p))
        {
          ProjectStep(old(Pane(p)), run, i, p);
        }
      }
      assert run[..|run|] == run;
    }
  }

  /** A run of a new monitor. What a row of a live pane reports is what the pane's current lifetime calls for. */
  method Monitor(run: seq<Input>) returns (outs: seq<seq<Outcome>>)
    ensures OutcomesOf(run, outs)
    ensures forall i, j :: 0 <= i < |run| && 0 <= j < |ListingOf(run[i])| && !run[i].listing[j].dead ==>
              var life := Lifetime(Before(run, i, j) + [RowEvent(run[i], j)]);
              life != [] && outs[i][j].report == LifeReport(run[i].listing[j].id, life)
  {
    hide Fold, Project, OutcomeOf, Rows, LifeReport, Lifetime;
    var ctx := new Context();
    outs := ctx.Run(run);
    forall i, j | 0 <= i < |run| && 0 <= j < |ListingOf(run[i])|
      ensures outs[i][j] == OutcomeOf(Fold(NEVER_SEEN, Before(run, i, j)), run[i].now, run[i].cfg, run[i].listing[j])
    {
      var id := run[i].listing[j].id;
      FoldConcat(NEVER_SEEN, Project(run[..i], id), Rows(run[i].now, run[i].cfg, run[i].listing[..j], id));
    }
    forall i, j | 0 <= i < |run| && 0 <= j < |ListingOf(run[i])| && !run[i].listing[j].dead
      ensures var life := Lifetime(Before(run, i, j) + [RowEvent(run[i], j)]);
              life != [] && outs[i][j].report == LifeReport(run[i].listing[j].id, life)
    {
      LiveReportIsOfLifetime(Before(run, i, j), run[i].now, run[i].cfg, run[i].listing[j]);
    }
  }

  /** The idle cause each adapter settles on, as `IdleCauseOf` says. */
  method ClassifyIdle(f: Facts, h: PaneTailHistory) returns (cause: Option<IdleCause>)
    ensures cause == IdleCauseOf(f, History(h.snapshots, h.capacity))
  {
    hide Still, ChangedWithin;
    if !CommonPath(f) && f.provider == Qmonster {
      return None;
    }
    cause := Marker(f);
    if cause.Some? {
      return;
    }
    if CommonPath(f) {
      var still := h.IsStill(h.capacity);
      return if still then Some(Stale) else None;
    }
    if f.limitHit {
      return Some(LimitHit);
    }
    if f.provider == Gemini {
      var changed := h.ChangedWithinCapacity();
      if f.inProgress || changed {
        return None;
      }
    }
    if f.idleCursor {
      return Some(WorkComplete);
    }
    var still := h.IsStill(h.capacity);
    return if still then Some(Stale) else None;
  }
}
