/** The short flash of a pane card after its idle state changed. */
module Flashes {
  import opened Wrappers
  import opened PaneTick

  /** `STATE_FLASH_DURATION`: 3 seconds, in nanoseconds. */
  const FLASH_DURATION: nat := 3_000_000_000

  datatype Flash = Flash(state: Option<IdleCause>, changedAt: Instant)

  datatype Report = Report(id: PaneId, idle: Option<IdleCause>)

  /** What is kept for one pane: the state last reported, and a flash. */
  datatype Card = Card(last: Option<Option<IdleCause>>, flash: Option<Flash>)

  const NO_CARD := Card(None, None)

  predicate IsActive(f: Flash, now: Instant) {
    now < f.changedAt + FLASH_DURATION
  }

  function Pruned(c: Card, now: Instant): Card {
    if c.flash.Some? && !IsActive(c.flash.value, now) then c.(flash := None) else c
  }

  function Shown(c: Card, idle: Option<IdleCause>, now: Instant): Card {
    Card(Some(idle), if c.last.Some? && c.last.value != idle then Some(Flash(idle, now)) else c.flash)
  }

  ghost function ShowAll(c: Card, states: seq<Option<IdleCause>>, now: Instant): Card {
    if states == [] then c
    else Shown(ShowAll(c, states[..|states| - 1], now), states[|states| - 1], now)
  }

  /** One tick: an unreported pane is forgotten; otherwise an expired flash is dropped and the reported states
      are shown in order. */
  ghost function AfterTick(c: Card, states: seq<Option<IdleCause>>, now: Instant): Card {
    if states == [] then NO_CARD else ShowAll(Pruned(c, now), states, now)
  }

  /** The states reported for pane `p`. */
  ghost function StatesOf(reports: seq<Report>, p: PaneId): seq<Option<IdleCause>> {
    if reports == [] then []
    else
      var last := reports[|reports| - 1];
      StatesOf(reports[..|reports| - 1], p) + if last.id == p then [last.idle] else []
  }

  lemma {:induction false} Reported(reports: seq<Report>, p: PaneId)
    ensures StatesOf(reports, p) != [] <==> exists i :: 0 <= i < |reports| && reports[i].id == p
  {
    if reports != [] {
      var init := reports[..|reports| - 1];
      Reported(init, p);
      assert forall i :: 0 <= i < |init| ==> init[i] == reports[i];
    }
  }

  lemma ShowOneMore(c: Card, reports: seq<Report>, i: nat, now: Instant, p: PaneId)
    requires i < |reports|
    ensures ShowAll(c, StatesOf(reports[..i + 1], p), now)
         == if reports[i].id == p then Shown(ShowAll(c, StatesOf(reports[..i], p), now), reports[i].idle, now)
            else ShowAll(c, StatesOf(reports[..i], p), now)
  {
    hide Shown;
    assert reports[..i + 1][..i] == reports[..i];
    var states := StatesOf(reports[..i], p);
    assert (states + [reports[i].idle])[..|states|] == states;
    assert states + [] == states;
  }

  class PaneFlashes {
    var lastStates: map<PaneId, Option<IdleCause>>
    var flashes: map<PaneId, Flash>

    ghost function CardOf(p: PaneId): Card
      reads this
    {
      Card(if p in lastStates then Some(lastStates[p]) else None, if p in flashes then Some(flashes[p]) else None)
    }

    constructor ()
      ensures forall p :: CardOf(p) == NO_CARD
    {
      lastStates, flashes := map[], map[];
    }

    /** `update_pane_state_flashes` */
    method Update(reports: seq<Report>, now: Instant)
      modifies this
      ensures forall p :: CardOf(p) == AfterTick(old(CardOf(p)), StatesOf(reports, p), now)
    {
      hide Shown, ShowAll, StatesOf;
      var current := set i | 0 <= i < |reports| :: reports[i].id;
      lastStates := map p | p in lastStates && p in current :: lastStates[p];
      flashes := map p | p in flashes && p in current && IsActive(flashes[p], now) :: flashes[p];
      label Retained:
      forall p
        ensures CardOf(p) == if p in current then Pruned(old(CardOf(p)), now) else NO_CARD
        ensures p in current <==> StatesOf(reports, p) != []
        ensures ShowAll(CardOf(p), StatesOf(reports[..0], p), now) == CardOf(p)
      {
        Reported(reports, p);
        NothingShown(CardOf(p), reports, now, p);
      }
      for i := 0 to |reports|
        invariant forall p :: CardOf(p) == ShowAll(old@Retained(CardOf(p)), StatesOf(reports[..i], p), now)
      {
        ShowReport(reports[i], now);
        forall p
          ensures CardOf(p) == ShowAll(old@Retained(CardOf(p)), StatesOf(reports[..i + 1], p), now)
        {
          ShowOneMore(old@Retained(CardOf(p)), reports, i, now, p);
        }
      }
      assert reports[..|reports|] == reports;
      forall p
        ensures CardOf(p) == AfterTick(old(CardOf(p)), StatesOf(reports, p), now)
      {
        NothingShown(NO_CARD, reports, now, p);
      }
    }

    /** The loop body: a flash starts when the state differs from the one remembered. */
    method ShowReport(report: Report, now: Instant)
      modifies this
      ensures CardOf(report.id) == Shown(old(CardOf(report.id)), report.idle, now)
      ensures forall p :: p != report.id ==> CardOf(p) == old(CardOf(p))
    {
      var previous := if report.id in lastStates then Some(lastStates[report.id]) else None;
      lastStates := lastStates[report.id := report.idle];
      if previous.Some? && previous.value != report.idle {
        flashes := flashes[report.id := Flash(report.idle, now)];
      }
    }
  }

  lemma NothingShown(c: Card, reports: seq<Report>, now: Instant, p: PaneId)
    ensures ShowAll(c, StatesOf(reports[..0], p), now) == c
    ensures StatesOf(reports, p) == [] ==> ShowAll(c, StatesOf(reports, p), now) == c
  {
  }

  // ----- Runs of ticks, as one pane sees them -----

  datatype Tick = Tick(now: Instant, states: seq<Option<IdleCause>>)

  datatype Row = Row(now: Instant, state: Option<IdleCause>)

  ghost function CardAfter(ticks: seq<Tick>): Card {
    if ticks == [] then NO_CARD
    else AfterTick(CardAfter(ticks[..|ticks| - 1]), ticks[|ticks| - 1].states, ticks[|ticks| - 1].now)
  }

  ghost function RowsOf(t: Tick): seq<Row> {
    seq(|t.states|, i requires 0 <= i < |t.states| => Row(t.now, t.states[i]))
  }

  /** The reports since the pane was last missing from a tick. */
  ghost function Presence(ticks: seq<Tick>): seq<Row> {
    if ticks == [] || ticks[|ticks| - 1].states == [] then []
    else Presence(ticks[..|ticks| - 1]) + RowsOf(ticks[|ticks| - 1])
  }

  /** Row `j` is the latest that changed the state. */
  ghost predicate LastChange(rows: seq<Row>, j: nat) {
    && 0 < j < |rows|
    && rows[j].state != rows[j - 1].state
    && forall k :: j < k < |rows| ==> rows[k].state == rows[k - 1].state
  }

  /** The card of a pane whose presence is `rows`, at time `now`. */
  ghost predicate Tells(c: Card, rows: seq<Row>, now: Instant) {
    && c.last == (if rows == [] then None else Some(rows[|rows| - 1].state))
    && (c.flash.None? ==> forall j: nat :: LastChange(rows, j) ==> now >= rows[j].now + 3_000_000_000)
    && (c.flash.Some? ==> exists j: nat :: LastChange(rows, j) && c.flash.value == Flash(rows[j].state, rows[j].now)
                                           && now < rows[j].now + 3_000_000_000)
  }

  lemma PrunedTells(c: Card, rows: seq<Row>, now: Instant, later: Instant)
    requires Tells(c, rows, now) && now <= later
    ensures Tells(Pruned(c, later), rows, later)
  {
    forall i: nat, j: nat | LastChange(rows, i) && LastChange(rows, j)
      ensures i == j
    {
    }
  }

  lemma ShownTells(c: Card, rows: seq<Row>, now: Instant, state: Option<IdleCause>)
    requires Tells(c, rows, now)
    ensures Tells(Shown(c, state, now), rows + [Row(now, state)], now)
  {
    var longer := rows + [Row(now, state)];
    if rows != [] && rows[|rows| - 1].state != state {
      assert LastChange(longer, |rows|);
    } else {
      forall j: nat
        ensures LastChange(longer, j) <==> LastChange(rows, j)
      {
        assert forall k :: 0 <= k < |rows| ==> longer[k] == rows[k];
      }
    }
  }

  lemma {:induction false} ShowAllTells(c: Card, rows: seq<Row>, t: Tick)
    requires Tells(c, rows, t.now)
    ensures Tells(ShowAll(c, t.states, t.now), rows + RowsOf(t), t.now)
    decreases |t.states|
  {
    hide Tells, Shown;
    if t.states == [] {
      assert rows + RowsOf(t) == rows;
    } else {
      var before, last := t.(states := t.states[..|t.states| - 1]), t.states[|t.states| - 1];
      ShowAllTells(c, rows, before);
      ShownTells(ShowAll(c, before.states, t.now), rows + RowsOf(before), t.now, last);
      assert rows + RowsOf(t) == rows + RowsOf(before) + [Row(t.now, last)];
    }
  }

  /** On a clock that never goes back: a card flashes exactly while its pane's latest change of state, since the
      pane was last missing, is less than three seconds old; the flash shows that change and when it happened. */
  lemma {:induction false} FlashIsLastChange(ticks: seq<Tick>)
    requires ticks != []
    requires forall i, j :: 0 <= i < j < |ticks| ==> ticks[i].now <= ticks[j].now
    ensures Tells(CardAfter(ticks), Presence(ticks), ticks[|ticks| - 1].now)
  {
    hide Tells, Pruned, ShowAll;
    var n := |ticks| - 1;
    var before, t := ticks[..n], ticks[n];
    if t.states == [] {
      NoCardTells(t.now);
    } else if before == [] {
      NoCardTells(t.now);
      PrunedTells(NO_CARD, [], t.now, t.now);
      ShowAllTells(Pruned(NO_CARD, t.now), [], t);
    } else {
      FlashIsLastChange(before);
      PrunedTells(CardAfter(before), Presence(before), before[|before| - 1].now, t.now);
      ShowAllTells(Pruned(CardAfter(before), t.now), Presence(before), t);
    }
  }

  lemma NoCardTells(now: Instant)
    ensures Tells(NO_CARD, [], now)
  {
  }
}
