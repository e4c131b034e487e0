/** Automatic snapshots of a pane over its whole history. The lifecycle reset drops the dedup state, so the promise
    of one snapshot per window has to hold across lifetimes too. */
module SnapshotRuns {
  import opened Wrappers
  import opened Pressure
  import opened PaneTick
  import opened EventLoop
  import Snap = AutoSnapshot

  /** The audit rows recorded by one row of a listing. */
  ghost function RowAudits(before: seq<Event>, now: Instant, cfg: Config, e: Entry): seq<Snap.AuditRow> {
    OutcomeOf(Fold(NEVER_SEEN, before), now, cfg, e).audits
  }

  /** The audit rows that the pane's events produce. */
  ghost function Trail(evs: seq<Event>): seq<Snap.AuditRow> {
    if evs == [] then []
    else
      var before := evs[..|evs| - 1];
      Trail(before) +
      match evs[|evs| - 1]
      case Listed(now, cfg, e) => RowAudits(before, now, cfg, e)
      case _ => []
  }

  /** The lifetimes of the pane, each with its ticks; the last one is the current one while the pane is alive. */
  ghost function Lives(evs: seq<Event>): seq<seq<Tick>> {
    if evs == [] then []
    else
      var before, last := evs[..|evs| - 1], evs[|evs| - 1];
      var lives := Lives(before);
      if !(last.Listed? && !last.entry.dead) then lives
      else
        var tick := TickOf(Fold(NEVER_SEEN, before), last.now, last.cfg, last.entry);
        if Alive(before) && lives != [] then lives[..|lives| - 1] + [lives[|lives| - 1] + [tick]]
        else lives + [[tick]]
  }

  lemma {:induction false} LastLifeIsCurrent(evs: seq<Event>)
    ensures Alive(evs) ==> Lives(evs) != [] && Lives(evs)[|Lives(evs)| - 1] == Lifetime(evs)
    ensures forall i :: 0 <= i < |Lives(evs)| ==> Lives(evs)[i] != []
  {
    hide TickOf, Fold;
    if evs != [] {
      LastLifeIsCurrent(evs[..|evs| - 1]);
      FlagIsAlive(evs[..|evs| - 1]);
    }
  }

  // ----- The audit rows of a lifetime -----

  lemma {:induction false} AuditsConcat(a: seq<Snap.Attempt>, b: seq<Snap.Attempt>)
    ensures Snap.Audits(a + b) == Snap.Audits(a) + Snap.Audits(b)
  {
    if b == [] {
      assert a + b == a;
    } else {
      AuditsConcat(a, b[..|b| - 1]);
      assert (a + b)[..|a + b| - 1] == a + b[..|b| - 1];
    }
  }

  /** The rows of a lifetime's run. */
  ghost function LifeAudits(life: seq<Tick>): seq<Snap.AuditRow> {
    Snap.Audits(Snap.RunLog(SnapshotTicks(life)))
  }

  /** One tick of a live pane adds to the rows of its lifetime what its outcome records. */
  lemma LifeAuditsGrow(id: PaneId, life: seq<Tick>, tick: Tick)
    ensures LifeAudits(life + [tick]) == LifeAudits(life) + LiveOutcome(id, FoldAlive(life), tick).audits
  {
    hide Snap.Audits, Snap.Attempts, Snap.DedupAfter, Snap.RunLog, FoldAlive, StepAlive, Snap.Notices;
    var run, t := SnapshotTicks(life), SnapshotTicks(life + [tick])[|life|];
    assert SnapshotTicks(life + [tick]) == run + [t];
    DedupIsOfLifetime(life);
    Snap.RunStep(run, t);
    var log := if TakesSnapshots(tick) then SnapshotLog(FoldAlive(life).dedup, tick) else [];
    AuditsConcat(Snap.RunLog(run), log);
  }

  ghost function AuditsOf(lives: seq<seq<Tick>>): seq<Snap.AuditRow> {
    if lives == [] then [] else AuditsOf(lives[..|lives| - 1]) + LifeAudits(lives[|lives| - 1])
  }

  lemma AuditsOfLast(lives: seq<seq<Tick>>, life: seq<Tick>)
    ensures AuditsOf(lives + [life]) == AuditsOf(lives) + LifeAudits(life)
  {
    assert (lives + [life])[..|lives|] == lives;
  }

  lemma NoAudits()
    ensures LifeAudits([]) == []
  {
  }

  /** They continue the rows of the current lifetime. */
  lemma RowContinuesLife(before: seq<Event>, now: Instant, cfg: Config, e: Entry)
    requires !e.dead
    ensures LifeAudits(Lifetime(before) + [TickOf(Fold(NEVER_SEEN, before), now, cfg, e)])
         == LifeAudits(Lifetime(before)) + RowAudits(before, now, cfg, e)
  {
    hide TickOf, Fold, LiveOutcome, LifeAudits, Lifetime, FoldAlive;
    StateIsOfLifetime(before, now, cfg, e);
    LifeAuditsGrow(e.id, Lifetime(before), TickOf(Fold(NEVER_SEEN, before), now, cfg, e));
  }

  lemma LivesGrow(before: seq<Event>, now: Instant, cfg: Config, e: Entry)
    requires !e.dead
    ensures AuditsOf(Lives(before + [Listed(now, cfg, e)])) == AuditsOf(Lives(before)) + RowAudits(before, now, cfg, e)
  {
    hide TickOf, Fold, LifeAudits, Lifetime, RowAudits;
    var evs, lives := before + [Listed(now, cfg, e)], Lives(before);
    var tick := TickOf(Fold(NEVER_SEEN, before), now, cfg, e);
    assert evs[..|before|] == before;
    RowContinuesLife(before, now, cfg, e);
    LastLifeIsCurrent(before);
    if Alive(before) {
      AuditsOfLast(lives[..|lives| - 1], Lifetime(before) + [tick]);
    } else {
      FlagIsAlive(before);
      NoAudits();
      assert [] + [tick] == [tick];
      AuditsOfLast(lives, [tick]);
    }
  }

  /** The rows recorded over a pane's whole history are those of the runs of its lifetimes, one after the other. */
  lemma {:induction false} TrailIsOfLives(evs: seq<Event>)
    ensures Trail(evs) == AuditsOf(Lives(evs))
  {
    hide TickOf, Fold, OutcomeOf, AuditsOf, Alive;
    if evs == [] {
      NoLivesNoAudits();
    } else {
      var before, last := evs[..|evs| - 1], evs[|evs| - 1];
      TrailIsOfLives(before);
      assert evs == before + [last];
      if last.Listed? && !last.entry.dead {
        LivesGrow(before, last.now, last.cfg, last.entry);
      } else if last.Listed? {
        DeadRowsRecordNothing(before, last.now, last.cfg, last.entry);
      }
      assert Trail(before) + [] == Trail(before);
    }
  }

  lemma NoLivesNoAudits()
    ensures AuditsOf([]) == []
  {
  }

  lemma DeadRowsRecordNothing(before: seq<Event>, now: Instant, cfg: Config, e: Entry)
    requires e.dead
    ensures RowAudits(before, now, cfg, e) == []
  {
  }

  // ----- Each window at most once -----

  /** The windows of the recorded snapshots of `kind`, in order. */
  ghost function Windows(rows: seq<Snap.AuditRow>, kind: Snap.QuotaKind): seq<nat> {
    if rows == [] then []
    else
      var last := rows[|rows| - 1];
      Windows(rows[..|rows| - 1], kind) + if last.kind == kind then [last.window] else []
  }

  lemma {:induction false} WindowsConcat(a: seq<Snap.AuditRow>, b: seq<Snap.AuditRow>, kind: Snap.QuotaKind)
    ensures Windows(a + b, kind) == Windows(a, kind) + Windows(b, kind)
  {
    if b == [] {
      assert a + b == a;
    } else {
      WindowsConcat(a, b[..|b| - 1], kind);
      assert (a + b)[..|a + b| - 1] == a + b[..|b| - 1];
    }
  }

  lemma {:induction false} AuditWindows(log: seq<Snap.Attempt>, kind: Snap.QuotaKind)
    ensures Windows(Snap.Audits(log), kind) == Snap.Written(log, kind)
  {
    if log != [] {
      var init, last := log[..|log| - 1], log[|log| - 1];
      AuditWindows(init, kind);
      if last.ok {
        WindowsConcat(Snap.Audits(init), [Snap.SnapshotWritten(last.kind, last.window)], kind);
      } else {
        assert Snap.Audits(init) + [] == Snap.Audits(init);
      }
    }
  }

  /** The windows offered in one lifetime. */
  ghost function LifeOffers(life: seq<Tick>, kind: Snap.QuotaKind): seq<nat> {
    Snap.Offers(SnapshotTicks(life), kind)
  }

  /** In every lifetime the offers of each window form one block, and no window is offered in two lifetimes. */
  ghost predicate OfferedOnce(lives: seq<seq<Tick>>, kind: Snap.QuotaKind) {
    && (forall i :: 0 <= i < |lives| ==> Snap.InBlocks(LifeOffers(lives[i], kind)))
    && forall i, j :: 0 <= i < j < |lives| ==> Apart(LifeOffers(lives[i], kind), LifeOffers(lives[j], kind))
  }

  ghost predicate Apart(a: seq<nat>, b: seq<nat>) {
    forall x :: x in a ==> x !in b
  }

  lemma NoRepeatsConcat(a: seq<nat>, b: seq<nat>)
    ensures Snap.NoRepeats(a + b) <==> Snap.NoRepeats(a) && Snap.NoRepeats(b) && Apart(a, b)
  {
    var ab := a + b;
    assert forall i :: 0 <= i < |a| ==> ab[i] == a[i];
    assert forall j :: 0 <= j < |b| ==> ab[|a| + j] == b[j];
    if Snap.NoRepeats(ab) {
      forall x | x in a
        ensures x !in b
      {
        var i :| 0 <= i < |a| && a[i] == x;
        assert forall j :: 0 <= j < |b| ==> b[j] != ab[i];
      }
    }
    if Apart(a, b) {
      assert forall i, j :: 0 <= i < |a| && 0 <= j < |b| ==> a[i] in a && b[j] in b && a[i] != b[j];
    }
  }

  lemma LifeWindows(life: seq<Tick>, kind: Snap.QuotaKind)
    ensures Snap.NoRepeats(Windows(LifeAudits(life), kind)) <==> Snap.InBlocks(LifeOffers(life, kind))
    ensures forall x :: x in Windows(LifeAudits(life), kind) <==> x in LifeOffers(life, kind)
  {
    hide Snap.NoRepeats, Snap.InBlocks, Snap.Offers, Snap.Written, Snap.Squeeze, Snap.RunLog, Snap.Audits, Windows;
    var run := SnapshotTicks(life);
    AuditWindows(Snap.RunLog(run), kind);
    Snap.WrittenAtMostOnce(run, kind);
    Snap.WritesSqueezedOffers(run, kind);
    Snap.SqueezeKeeps(Snap.Offers(run, kind));
  }

  ghost predicate OfferedIn(lives: seq<seq<Tick>>, kind: Snap.QuotaKind, x: nat) {
    exists i :: 0 <= i < |lives| && x in LifeOffers(lives[i], kind)
  }

  lemma OfferedOnceGrows(lives: seq<seq<Tick>>, life: seq<Tick>, kind: Snap.QuotaKind)
    ensures OfferedOnce(lives + [life], kind) <==>
              && OfferedOnce(lives, kind) && Snap.InBlocks(LifeOffers(life, kind))
              && forall x :: x in LifeOffers(life, kind) ==> !OfferedIn(lives, kind, x)
    ensures forall x :: OfferedIn(lives + [life], kind, x) <==> OfferedIn(lives, kind, x) || x in LifeOffers(life, kind)
  {
    hide LifeOffers, Snap.InBlocks;
    var longer := lives + [life];
    assert forall i :: 0 <= i < |lives| ==> longer[i] == lives[i];
    assert longer[|lives|] == life;
    forall x | OfferedIn(lives, kind, x)
      ensures OfferedIn(longer, kind, x)
    {
      var i :| 0 <= i < |lives| && x in LifeOffers(lives[i], kind);
      assert x in LifeOffers(longer[i], kind);
    }
    if OfferedOnce(longer, kind) {
      forall x | x in LifeOffers(life, kind)
        ensures !OfferedIn(lives, kind, x)
      {
        assert forall i :: 0 <= i < |lives| ==> Apart(LifeOffers(longer[i], kind), LifeOffers(longer[|lives|], kind));
      }
    }
  }

  lemma {:induction false} LivesWriteOnce(lives: seq<seq<Tick>>, kind: Snap.QuotaKind)
    ensures Snap.NoRepeats(Windows(AuditsOf(lives), kind)) <==> OfferedOnce(lives, kind)
    ensures forall x :: x in Windows(AuditsOf(lives), kind) <==> OfferedIn(lives, kind, x)
  {
    hide Windows, LifeAudits, LifeOffers, OfferedOnce, OfferedIn, Snap.NoRepeats, Snap.InBlocks;
    if lives == [] {
      NoLives(kind);
    } else {
      var init, life := lives[..|lives| - 1], lives[|lives| - 1];
      LivesWriteOnce(init, kind);
      LifeWindows(life, kind);
      assert lives == init + [life];
      OfferedOnceGrows(init, life, kind);
      WindowsConcat(AuditsOf(init), LifeAudits(life), kind);
      NoRepeatsConcat(Windows(AuditsOf(init), kind), Windows(LifeAudits(life), kind));
    }
  }

  lemma NoLives(kind: Snap.QuotaKind)
    ensures Windows(AuditsOf([]), kind) == [] && OfferedOnce([], kind)
    ensures forall x :: !OfferedIn([], kind, x)
    ensures Snap.NoRepeats([])
  {
  }

  /** Over a pane's whole history each window of a kind is written at most once exactly when, in every lifetime, the
      offers of each window form one block, and no window is offered in two lifetimes. */
  lemma WrittenAtMostOnce(evs: seq<Event>, kind: Snap.QuotaKind)
    ensures Snap.NoRepeats(Windows(Trail(evs), kind)) <==> OfferedOnce(Lives(evs), kind)
  {
    TrailIsOfLives(evs);
    LivesWriteOnce(Lives(evs), kind);
  }

  // ----- The audit rows of a run of the monitor -----

  /** The rows recorded for pane `p` in one tick. */
  ghost function ListingAudits(listing: seq<Entry>, outs: seq<Outcome>, p: PaneId): seq<Snap.AuditRow>
    requires |outs| == |listing|
  {
    if listing == [] then []
    else
      var n := |listing| - 1;
      ListingAudits(listing[..n], outs[..n], p) + if listing[n].id == p then outs[n].audits else []
  }

  ghost function RunAudits(run: seq<Input>, outs: seq<seq<Outcome>>, p: PaneId): seq<Snap.AuditRow>
    requires |outs| == |run| && forall i :: 0 <= i < |run| ==> |outs[i]| == |ListingOf(run[i])|
  {
    if run == [] then []
    else
      var n := |run| - 1;
      RunAudits(run[..n], outs[..n], p) + ListingAudits(ListingOf(run[n]), outs[n], p)
  }

  lemma TrailGrows(before: seq<Event>, now: Instant, cfg: Config, e: Entry)
    ensures Trail(before + [Listed(now, cfg, e)]) == Trail(before) + RowAudits(before, now, cfg, e)
  {
    assert (before + [Listed(now, cfg, e)])[..|before|] == before;
  }

  lemma TrailSkips(before: seq<Event>, ev: Event)
    requires !ev.Listed?
    ensures Trail(before + [ev]) == Trail(before)
  {
    assert (before + [ev])[..|before|] == before;
    assert Trail(before) + [] == Trail(before);
  }

  /** Row `j` recorded what the events of its pane, after `before`, call for. */
  ghost predicate Recorded(before: seq<Event>, now: Instant, cfg: Config, listing: seq<Entry>, out: Outcome, j: nat)
    requires j < |listing|
  {
    out.audits == RowAudits(before + Rows(now, cfg, listing[..j], listing[j].id), now, cfg, listing[j])
  }

  lemma OneMoreRow(before: seq<Event>, now: Instant, cfg: Config, init: seq<Entry>, last: Entry, outs: seq<Outcome>,
                   out: Outcome, p: PaneId)
    requires |outs| == |init|
    requires Trail(before + Rows(now, cfg, init, p)) == Trail(before) + ListingAudits(init, outs, p)
    requires last.id == p ==> out.audits == RowAudits(before + Rows(now, cfg, init, p), now, cfg, last)
    ensures Trail(before + Rows(now, cfg, init + [last], p))
         == Trail(before) + ListingAudits(init + [last], outs + [out], p)
  {
    hide RowAudits, Trail;
    var rows, audits := Rows(now, cfg, init, p), ListingAudits(init, outs, p);
    assert (init + [last])[..|init|] == init && (outs + [out])[..|outs|] == outs;
    if last.id == p {
      TrailGrows(before + rows, now, cfg, last);
      assert before + (rows + [Listed(now, cfg, last)]) == before + rows + [Listed(now, cfg, last)];
      assert Trail(before) + (audits + out.audits) == Trail(before) + audits + out.audits;
    } else {
      assert rows + [] == rows && audits + [] == audits;
    }
  }

  lemma {:induction false} ListingTrail(before: seq<Event>, now: Instant, cfg: Config, listing: seq<Entry>,
                                        outs: seq<Outcome>, p: PaneId)
    requires |outs| == |listing|
    requires forall j :: 0 <= j < |listing| && listing[j].id == p ==> Recorded(before, now, cfg, listing, outs[j], j)
    ensures Trail(before + Rows(now, cfg, listing, p)) == Trail(before) + ListingAudits(listing, outs, p)
  {
    hide RowAudits, Trail;
    if listing == [] {
      assert before + [] == before && Trail(before) + [] == Trail(before);
    } else {
      var n := |listing| - 1;
      var init := listing[..n];
      forall j | 0 <= j < n && init[j].id == p
        ensures Recorded(before, now, cfg, init, outs[..n][j], j)
      {
        assert init[..j] == listing[..j];
      }
      hide Rows, ListingAudits;
      ListingTrail(before, now, cfg, init, outs[..n], p);
      assert listing == init + [listing[n]] && outs == outs[..n] + [outs[n]];
      OneMoreRow(before, now, cfg, init, listing[n], outs[..n], outs[n], p);
    }
  }

  lemma PrefixOutcomes(run: seq<Input>, outs: seq<seq<Outcome>>, n: nat)
    requires OutcomesOf(run, outs) && n <= |run|
    ensures OutcomesOf(run[..n], outs[..n])
  {
    hide OutcomeOf, Fold, Rows, Project;
    forall i, j | 0 <= i < n && 0 <= j < |ListingOf(run[..n][i])|
      ensures Before(run[..n], i, j) == Before(run, i, j)
    {
      assert run[..n][..i] == run[..i];
    }
  }

  /** The rows that a run records for a pane are those its own events produce. */
  lemma {:induction false} RunTrail(run: seq<Input>, outs: seq<seq<Outcome>>, p: PaneId)
    requires OutcomesOf(run, outs)
    ensures RunAudits(run, outs, p) == Trail(Project(run, p))
  {
    hide OutcomeOf, Fold, Rows, Trail, IsListed, ListingAudits;
    if run == [] {
      NoTrail();
    } else {
      var n := |run| - 1;
      var before := Project(run[..n], p);
      PrefixOutcomes(run, outs, n);
      RunTrail(run[..n], outs[..n], p);
      match run[n]
      case Poll(now, cfg, listing) =>
        assert forall j :: 0 <= j < |listing| && listing[j].id == p ==>
            Before(run, n, j) == before + Rows(now, cfg, listing[..j], p)
            && Recorded(before, now, cfg, listing, outs[n][j], j);
        ListingTrail(before, now, cfg, listing, outs[n], p);
        UnlistedHasNoRows(now, cfg, listing, p);
        TrailSkips(before, Gone);
        assert before + [] == before;
      case Refresh(id, text) =>
        TrailSkips(before, Captured(text));
        NothingListed(outs[n], p);
        assert before + [] == before && Trail(before) + [] == Trail(before);
    }
  }

  lemma NoTrail()
    ensures Trail([]) == []
  {
  }

  lemma NothingListed(outs: seq<Outcome>, p: PaneId)
    requires outs == []
    ensures ListingAudits([], outs, p) == []
  {
  }

  /** Over any run of a new monitor a pane's window is written at most once exactly under that condition on the
      ticks of its lifetimes. */
  lemma RunWritesOnce(run: seq<Input>, outs: seq<seq<Outcome>>, p: PaneId, kind: Snap.QuotaKind)
    requires OutcomesOf(run, outs)
    ensures Snap.NoRepeats(Windows(RunAudits(run, outs, p), kind)) <==> OfferedOnce(Lives(Project(run, p)), kind)
  {
    RunTrail(run, outs, p);
    WrittenAtMostOnce(Project(run, p), kind);
  }

  // ----- A pane that returns in the same window -----

  const AT_RESET := Facts(
    Claude, false, false, false, false, false, false, false, NO_PRESSURES,
    Snap.Resets(Some(60), None), [Snap.Recommendation(Some(Snap.FiveHour), true)])

  const SNAPSHOTS_ON := Config(4, 1, true)

  const ROW := Entry("%1", false, "", _ => AT_RESET)

  /** The pane is listed, is missing from one listing, as when another window is selected, and is listed again. */
  const AWAY_AND_BACK: seq<Input> :=
    [Poll(0, SNAPSHOTS_ON, [ROW]), Poll(1, SNAPSHOTS_ON, []), Poll(2, SNAPSHOTS_ON, [ROW])]

  lemma RowIsListed(now: Instant)
    ensures EventsOf(now, SNAPSHOTS_ON, [ROW], "%1") == [Listed(now, SNAPSHOTS_ON, ROW)]
    ensures EventsOf(now, SNAPSHOTS_ON, [], "%1") == [Gone]
  {
    assert [ROW][0].id == "%1";
    assert [ROW][..0] == [];
    assert Rows(now, SNAPSHOTS_ON, [], "%1") == [];
  }

  lemma AwayAndBackEvents()
    ensures Project(AWAY_AND_BACK, "%1") == [Listed(0, SNAPSHOTS_ON, ROW), Gone, Listed(2, SNAPSHOTS_ON, ROW)]
  {
    hide EventsOf, ROW;
    RowIsListed(0);
    RowIsListed(1);
    RowIsListed(2);
    var run := AWAY_AND_BACK;
    assert run[..2][..1] == run[..1] && run[..1][..0] == [];
    assert Project(run[..1], "%1") == [Listed(0, SNAPSHOTS_ON, ROW)];
    assert Project(run[..2], "%1") == [Listed(0, SNAPSHOTS_ON, ROW), Gone];
  }

  lemma OneOffer(tick: Snap.Tick)
    requires tick.enabled && tick.resets == AT_RESET.resets && tick.recs == AT_RESET.recs
    ensures Snap.Offers([tick], Snap.FiveHour) == [60]
  {
    var recs := tick.recs;
    assert recs[..0] == [] && [tick][..0] == [];
    assert Snap.OfferOf(recs[0], tick.resets, Snap.FiveHour) == [60];
    assert Snap.OffersIn(recs, tick.resets, Snap.FiveHour) == [] + [60] == [60];
    assert Snap.Offers([tick], Snap.FiveHour) == [] + [60] == [60];
  }

  lemma OneTickLife(tick: Tick)
    requires tick.facts == AT_RESET && tick.cfg == SNAPSHOTS_ON
    ensures LifeOffers([tick], Snap.FiveHour) == [60]
    ensures Windows(LifeAudits([tick]), Snap.FiveHour) == [60]
  {
    hide Snap.RunLog, Snap.Audits, Snap.Offers, Snap.Written, Windows;
    var run := SnapshotTicks([tick]);
    assert run == [run[0]];
    OneOffer(run[0]);
    AuditWindows(Snap.RunLog(run), Snap.FiveHour);
    Snap.WritesSqueezedOffers(run, Snap.FiveHour);
  }

  lemma TwoLives(first: Event, last: Event)
    requires first.Listed? && last.Listed? && first.entry == last.entry == ROW
    ensures var lives := Lives([first, Gone, last]);
            && |lives| == 2 && |lives[0]| == |lives[1]| == 1
            && lives[0][0].facts == lives[1][0].facts == AT_RESET
            && lives[0][0].cfg == first.cfg && lives[1][0].cfg == last.cfg
  {
    hide Fold, ParseTail;
    var evs := [first, Gone, last];
    assert evs[..2] == [first, Gone] && evs[..2][..1] == [first] && [first][..0] == [];
    assert Lives([first]) == [[TickOf(Fold(NEVER_SEEN, []), first.now, first.cfg, first.entry)]];
    assert Lives(evs[..2]) == Lives([first]);
    assert !Alive(evs[..2]);
  }

  /** One window is written twice, although the offers of every lifetime form one block. */
  lemma ReturningWritesTwice(outs: seq<seq<Outcome>>)
    requires OutcomesOf(AWAY_AND_BACK, outs)
    ensures Windows(RunAudits(AWAY_AND_BACK, outs, "%1"), Snap.FiveHour) == [60, 60]
    ensures forall life :: life in Lives(Project(AWAY_AND_BACK, "%1")) ==>
              Snap.InBlocks(LifeOffers(life, Snap.FiveHour))
  {
    hide Lives, LifeAudits, LifeOffers, Windows, Trail, OutcomesOf, RunAudits;
    var evs := [Listed(0, SNAPSHOTS_ON, ROW), Gone, Listed(2, SNAPSHOTS_ON, ROW)];
    RunTrail(AWAY_AND_BACK, outs, "%1");
    AwayAndBackEvents();
    TrailIsOfLives(evs);
    TwoLives(evs[0], evs[2]);
    var lives := Lives(evs);
    assert lives == [lives[0]] + [lives[1]] && [lives[0]] == [] + [lives[0]];
    assert lives[0] == [lives[0][0]] && lives[1] == [lives[1][0]];
    OneTickLife(lives[0][0]);
    OneTickLife(lives[1][0]);
    AuditsOfLast([lives[0]], lives[1]);
    AuditsOfLast([], lives[0]);
    NoLivesNoAudits();
    assert [] + LifeAudits(lives[0]) == LifeAudits(lives[0]);
    WindowsConcat(LifeAudits(lives[0]), LifeAudits(lives[1]), Snap.FiveHour);
  }
}
