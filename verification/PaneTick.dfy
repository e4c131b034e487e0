/** What one polling tick does to everything the monitor remembers about one pane, and
    what that memory is after any run of ticks. The class in EventLoop is proved against
    these functions. */
module PaneTick {
  import opened Wrappers
  import opened Text
  import opened TailHistory
  import opened Pressure
  import Snap = AutoSnapshot

  type PaneId = string

  datatype IdleCause = PermissionWait | InputWait | LimitHit | WorkComplete | Stale

  /** What the adapters and the policy read off a parse tail; arbitrary inputs here. */
  datatype Facts = Facts(
    provider: Provider,
    conflict: bool,
    permissionPrompt: bool,
    waitingPrompt: bool,
    limitHit: bool,
    inProgress: bool,
    idleCursor: bool,
    errorHint: bool,
    pressures: Pressures,
    resets: Snap.Resets,
    recs: seq<Snap.Recommendation>)

  /** The settings a tick reads. They may change between ticks. */
  datatype Config = Config(stillnessPolls: nat, errorWindow: nat, autoSnapshot: bool)

  /** One row of a pane listing. */
  datatype Entry = Entry(id: PaneId, dead: bool, tail: string, facts: string -> Facts)

  // ----- Idle classification -----

  /** Identity conflicts and the providers without an adapter of their own. */
  predicate CommonPath(f: Facts) {
    f.conflict || f.provider == Antigravity || f.provider == Unknown
  }

  function Marker(f: Facts): Option<IdleCause> {
    if f.permissionPrompt then Some(PermissionWait)
    else if f.waitingPrompt then Some(InputWait)
    else None
  }

  /** The cause each parsing path settles on, given the history with the current tail pushed. */
  ghost function IdleCauseOf(f: Facts, h: History): Option<IdleCause> {
    var stale := if Still(h.tails, h.capacity) then Some(Stale) else None;
    if !CommonPath(f) && f.provider == Qmonster then None
    else if Marker(f).Some? then Marker(f)
    else if CommonPath(f) then stale
    else if f.limitHit then Some(LimitHit)
    else if f.provider == Gemini && (f.inProgress || ChangedWithin(h.tails, h.capacity)) then None
    else if f.idleCursor then Some(WorkComplete)
    else stale
  }

  /** The identity conflicts, or the provider has no adapter. */
  predicate Adapterless(f: Facts) {
    f.conflict || f.provider in {Antigravity, Unknown}
  }

  /** An adapter that reports idle causes classifies the pane. */
  predicate HasAdapter(f: Facts) {
    !f.conflict && f.provider in {Claude, Codex, Gemini}
  }

  predicate NoPrompt(f: Facts) {
    !f.permissionPrompt && !f.waitingPrompt
  }

  /** When each cause is reported, whatever the path. A full window of still tails has not changed, so Gemini's
      test for a change never hides a stale pane. */
  lemma IdleCauseIff(f: Facts, h: History)
    ensures IdleCauseOf(f, h) == Some(PermissionWait) <==>
              (Adapterless(f) || HasAdapter(f)) && f.permissionPrompt
    ensures IdleCauseOf(f, h) == Some(InputWait) <==>
              (Adapterless(f) || HasAdapter(f)) && f.waitingPrompt && !f.permissionPrompt
    ensures IdleCauseOf(f, h) == Some(LimitHit) <==> HasAdapter(f) && NoPrompt(f) && f.limitHit
    ensures IdleCauseOf(f, h) == Some(WorkComplete) <==>
              && HasAdapter(f) && NoPrompt(f) && !f.limitHit && f.idleCursor
              && (f.provider == Gemini ==> !f.inProgress && !ChangedWithin(h.tails, h.capacity))
    ensures IdleCauseOf(f, h) == Some(Stale) <==> MayBeStale(f) && Still(h.tails, h.capacity)
  {
    hide Normalized;
  }

  /** No marker, limit, cursor or progress of the pane's own path speaks against a stale pane. */
  predicate MayBeStale(f: Facts) {
    && NoPrompt(f)
    && (Adapterless(f) || (HasAdapter(f) && !f.limitHit && !f.idleCursor && !(f.provider == Gemini && f.inProgress)))
  }

  // ----- The per-pane caches -----

  datatype History = History(tails: seq<string>, capacity: nat)

  /** `None` is a missing map entry. */
  datatype Caches = Caches(
    history: Option<History>,
    idle: Option<Option<IdleCause>>,
    enteredAt: Option<Instant>,
    errors: Option<seq<bool>>,
    pressure: Option<Cache>,
    dedup: Option<Snap.Dedup>)

  const EMPTY := Caches(None, None, None, None, None, None)

  /** One tick of a live pane: the time, the settings, the parse tail and the facts read off it. */
  datatype Tick = Tick(now: Instant, cfg: Config, tail: string, facts: Facts)

  ghost function PushTail(history: Option<History>, t: Tick): History {
    var h := if history.Some? then history.value else History([], Clamp(t.cfg.stillnessPolls));
    History(LastN(h.tails + [t.tail], h.capacity), h.capacity)
  }

  function ErrorCap(t: Tick): nat {
    if t.cfg.errorWindow > 1 then t.cfg.errorWindow else 1
  }

  /** Newest first, cut to the window of the current tick. */
  function PushError(errors: seq<bool>, t: Tick): seq<bool> {
    var es := [t.facts.errorHint] + errors;
    if |es| > ErrorCap(t) then es[..ErrorCap(t)] else es
  }

  function Entered(last: Option<IdleCause>, cause: Option<IdleCause>, enteredAt: Option<Instant>, now: Instant)
    : Option<Instant>
  {
    if last.None? && cause.Some? then Some(now)
    else if last.Some? && cause.Some? && last != cause then Some(now)
    else if last.Some? && cause.None? then None
    else enteredAt
  }

  predicate TakesSnapshots(t: Tick) {
    t.cfg.autoSnapshot && t.facts.provider != Antigravity
  }

  ghost function SnapshotLog(dedup: Option<Snap.Dedup>, t: Tick): seq<Snap.Attempt> {
    Snap.Attempts(if dedup.Some? then dedup.value else Snap.NO_SNAPSHOT, [], t.facts.recs, t.facts.resets)
  }

  ghost function SnapshotDedup(dedup: Option<Snap.Dedup>, t: Tick): Option<Snap.Dedup> {
    if !TakesSnapshots(t) then dedup
    else
      Some(Snap.DedupAfter(if dedup.Some? then dedup.value else Snap.NO_SNAPSHOT, SnapshotLog(dedup, t)))
  }

  function LastCause(idle: Option<Option<IdleCause>>): Option<IdleCause> {
    if idle.Some? then idle.value else None
  }

  function OrEmpty(errors: Option<seq<bool>>): seq<bool> {
    if errors.Some? then errors.value else []
  }

  ghost function StepAlive(c: Caches, t: Tick): Caches {
    var h := PushTail(c.history, t);
    var cause := IdleCauseOf(t.facts, h);
    Caches(
      Some(h),
      Some(cause),
      Entered(LastCause(c.idle), cause, c.enteredAt, t.now),
      Some(PushError(OrEmpty(c.errors), t)),
      Applied(c.pressure, t.facts.provider, t.facts.pressures).0,
      SnapshotDedup(c.dedup, t))
  }

  ghost function FoldAlive(ticks: seq<Tick>): Caches {
    if ticks == [] then EMPTY
    else StepAlive(FoldAlive(ticks[..|ticks| - 1]), ticks[|ticks| - 1])
  }

  // ----- Events seen by one pane -----

  /** A pane is missing from a listing that follows one it was in, has a runtime refresh captured
      for it between ticks, or is listed. */
  datatype Event = Gone | Captured(text: string) | Listed(now: Instant, cfg: Config, entry: Entry)

  /** `seen` is the lifecycle flag: the pane was dead when last observed. */
  datatype PaneState = PaneState(seen: Option<bool>, overlay: Option<string>, caches: Caches)

  const NEVER_SEEN := PaneState(None, None, EMPTY)

  /** `merge_runtime_refresh_tail` */
  function MergeTail(live: string, captured: string): string {
    if Blank(captured) then live
    else if Blank(live) then captured
    else captured + "\n" + live
  }

  function ParseTail(overlay: Option<string>, live: string): string {
    if overlay.Some? then MergeTail(live, overlay.value) else live
  }

  /** `runtime_refresh_tail_overlay_persists` */
  predicate Persists(captured: string) {
    var lower := Lower(captured);
    && (Contains(lower, "select model") || Contains(lower, "model usage"))
    && (Contains(lower, "reset:") || Contains(lower, "resets:"))
  }

  lemma PersistsIff(captured: string)
    ensures Persists(captured) <==>
              && (Mentions(captured, "select model") || Mentions(captured, "model usage"))
              && (Mentions(captured, "reset:") || Mentions(captured, "resets:"))
  {
    hide Mentions, Contains;
    MentionsIff(captured, "select model");
    MentionsIff(captured, "model usage");
    MentionsIff(captured, "reset:");
    MentionsIff(captured, "resets:");
  }

  /** The live tail comes last; blank text adds nothing. */
  lemma MergeTailIs(live: string, captured: string)
    ensures Blank(captured) ==> MergeTail(live, captured) == live
    ensures !Blank(captured) && Blank(live) ==> MergeTail(live, captured) == captured
    ensures !Blank(captured) && !Blank(live) ==> MergeTail(live, captured) == captured + ['\n'] + live
  {
  }

  /** The lifecycle events that reset a pane: it died, or it is back. */
  predicate IsReset(seen: Option<bool>, dead: bool) {
    seen.Some? && seen.value != dead
  }

  ghost function TickOf(s: PaneState, now: Instant, cfg: Config, e: Entry): Tick {
    var tail := ParseTail(s.overlay, e.tail);
    Tick(now, cfg, tail, e.facts(tail))
  }

  ghost function StepListed(s: PaneState, now: Instant, cfg: Config, e: Entry): PaneState {
    var reset := IsReset(s.seen, e.dead);
    var caches := if reset then EMPTY else s.caches;
    PaneState(
      Some(e.dead),
      if reset || (s.overlay.Some? && !Persists(s.overlay.value)) then None else s.overlay,
      if e.dead then caches else StepAlive(caches, TickOf(s, now, cfg, e)))
  }

  ghost function Step(s: PaneState, ev: Event): PaneState {
    match ev
    case Gone => s.(seen := if s.seen.Some? then Some(true) else None)
    case Captured(text) => if Blank(text) then s else s.(overlay := Some(text))
    case Listed(now, cfg, e) => StepListed(s, now, cfg, e)
  }

  ghost function Fold(s: PaneState, evs: seq<Event>): PaneState {
    if evs == [] then s else Step(Fold(s, evs[..|evs| - 1]), evs[|evs| - 1])
  }

  // ----- Lifetimes -----

  /** The pane was alive at its last appearance and has not gone since. */
  ghost predicate Alive(evs: seq<Event>) {
    if evs == [] then false
    else match evs[|evs| - 1]
      case Gone => false
      case Captured(_) => Alive(evs[..|evs| - 1])
      case Listed(_, _, e) => !e.dead
  }

  /** The ticks of the current lifetime: those since the pane was last dead or absent. */
  ghost function Lifetime(evs: seq<Event>): seq<Tick> {
    if evs == [] then []
    else
      var before := evs[..|evs| - 1];
      match evs[|evs| - 1]
      case Gone => []
      case Captured(_) => Lifetime(before)
      case Listed(now, cfg, e) =>
        if e.dead then [] else Lifetime(before) + [TickOf(Fold(NEVER_SEEN, before), now, cfg, e)]
  }

  /** The lifecycle flag says alive exactly when the pane was last listed alive and has not gone since. */
  lemma {:induction false} FlagIsAlive(evs: seq<Event>)
    ensures Fold(NEVER_SEEN, evs).seen == Some(false) <==> Alive(evs)
    ensures !Alive(evs) ==> Lifetime(evs) == []
    ensures Fold(NEVER_SEEN, evs).seen.None? ==> Fold(NEVER_SEEN, evs).caches == EMPTY
  {
    hide StepAlive;
    if evs != [] {
      FlagIsAlive(evs[..|evs| - 1]);
    }
  }

  /** Every cache of a live pane is a function of the ticks of its current lifetime alone. */
  lemma {:induction false} CachesHoldOneLifetime(evs: seq<Event>)
    requires Alive(evs)
    ensures Lifetime(evs) != []
    ensures Fold(NEVER_SEEN, evs).caches == FoldAlive(Lifetime(evs))
  {
    hide StepAlive;
    var before := evs[..|evs| - 1];
    FlagIsAlive(before);
    match evs[|evs| - 1]
    case Captured(_) =>
      CachesHoldOneLifetime(before);
    case Listed(now, cfg, e) =>
      if Alive(before) {
        CachesHoldOneLifetime(before);
      }
      var life := Lifetime(evs);
      assert life[..|life| - 1] == Lifetime(before);
  }

  lemma {:induction false} OverlayIsVisible(evs: seq<Event>)
    ensures var o := Fold(NEVER_SEEN, evs).overlay; o.Some? ==> !Blank(o.value)
  {
    hide StepAlive, Blank;
    if evs != [] {
      OverlayIsVisible(evs[..|evs| - 1]);
    }
  }

  /** The tail captured by event `i` is still pending: nothing was captured since, the pane was not reset, and it was
      not listed either, unless the text is of the kind that persists. */
  ghost predicate Pending(evs: seq<Event>, i: nat) {
    && i < |evs| && evs[i].Captured? && !Blank(evs[i].text)
    && forall j :: i < j < |evs| ==>
         match evs[j]
         case Gone => true
         case Captured(text) => Blank(text)
         case Listed(_, _, e) => Persists(evs[i].text) && !IsReset(Fold(NEVER_SEEN, evs[..j]).seen, e.dead)
  }

  /** One more event. */
  ghost predicate Leaves(text: string, seen: Option<bool>, ev: Event) {
    match ev
    case Gone => true
    case Captured(later) => Blank(later)
    case Listed(_, _, e) => Persists(text) && !IsReset(seen, e.dead)
  }

  lemma PendingStep(evs: seq<Event>, i: nat)
    requires i < |evs| - 1
    ensures Pending(evs, i) <==>
              && evs[i].Captured? && Pending(evs[..|evs| - 1], i)
              && Leaves(evs[i].text, Fold(NEVER_SEEN, evs[..|evs| - 1]).seen, evs[|evs| - 1])
  {
    hide Fold, Persists, Blank, IsReset;
    var init := evs[..|evs| - 1];
    assert forall j :: 0 <= j < |init| ==> init[j] == evs[j] && init[..j] == evs[..j];
  }

  /** Over every run an overlay is pending exactly when it was captured and is still pending; there is one at most. */
  lemma {:induction false} OverlayIsPending(evs: seq<Event>)
    ensures Fold(NEVER_SEEN, evs).overlay.Some? <==> exists i: nat :: Pending(evs, i)
    ensures forall i: nat :: Pending(evs, i) ==>
              i < |evs| && evs[i].Captured? && Fold(NEVER_SEEN, evs).overlay == Some(evs[i].text)
  {
    hide StepAlive, Persists, Blank, IsReset, Pending;
    NothingPending();
    if evs != [] {
      var n := |evs| - 1;
      var init, last := evs[..n], evs[n];
      OverlayIsPending(init);
      NewestPending(evs);
      forall i: nat | i < n
        ensures Pending(evs, i) <==>
                  evs[i].Captured? && Pending(init, i) && Leaves(evs[i].text, Fold(NEVER_SEEN, init).seen, last)
        ensures init[i] == evs[i]
      {
        PendingStep(evs, i);
      }
      if Fold(NEVER_SEEN, evs).overlay.Some? && !Pending(evs, n) {
        var i: nat :| Pending(init, i);
        assert Pending(evs, i);
      }
    }
  }

  lemma NothingPending()
    ensures forall evs, i: nat :: i >= |evs| ==> !Pending(evs, i)
  {
  }

  lemma NewestPending(evs: seq<Event>)
    requires evs != []
    ensures Pending(evs, |evs| - 1) <==> evs[|evs| - 1].Captured? && !Blank(evs[|evs| - 1].text)
  {
  }

  /** The one leak between lifetimes: the refresh overlay is merged into the tail before the reset.
      The first tick of a lifetime parses the pane's own tail exactly when no overlay is pending
      at that moment. */
  lemma FirstTickIsOwnTail(evs: seq<Event>, now: Instant, cfg: Config, e: Entry)
    requires !Alive(evs) && !e.dead
    ensures |Lifetime(evs + [Listed(now, cfg, e)])| == 1
    ensures Lifetime(evs + [Listed(now, cfg, e)])[0].tail == e.tail <==> Fold(NEVER_SEEN, evs).overlay.None?
  {
    assert (evs + [Listed(now, cfg, e)])[..|evs|] == evs;
    FlagIsAlive(evs);
    OverlayIsVisible(evs);
    var o := Fold(NEVER_SEEN, evs).overlay;
    if o.Some? && !Blank(e.tail) {
      assert |MergeTail(e.tail, o.value)| > |e.tail|;
    }
  }

  /** Such a leak happens: a refresh captured while the pane lived is parsed, and kept in its history,
      as part of the tail of the pane that takes its id after it vanished. */
  lemma VanishedOverlayLeaks(now: Instant, cfg: Config, e: Entry)
    requires !e.dead && e.tail == "x"
    ensures var evs := [Listed(now, cfg, e), Captured("old"), Gone];
            var life := Lifetime(evs + [Listed(now, cfg, e)]);
            !Alive(evs) && |life| == 1 && life[0].tail == "old\nx"
  {
    hide StepAlive;
    var evs := [Listed(now, cfg, e), Captured("old"), Gone];
    assert evs[..2][..1] == [evs[0]] && [evs[0]][..0] == [];
    assert "old"[0] == 'o' && !Blank("old");
    assert Fold(NEVER_SEEN, [evs[0]]) == Step(NEVER_SEEN, evs[0]);
    assert Fold(NEVER_SEEN, evs[..2]).overlay == Some("old");
    FirstTickIsOwnTail(evs, now, cfg, e);
    assert (evs + [Listed(now, cfg, e)])[..3] == evs;
    assert "x"[0] == 'x' && !Blank("x");
  }

  /** The pane is dead or absent, and has been listed before or has no overlay pending. */
  ghost predicate Down(evs: seq<Event>) {
    var s := Fold(NEVER_SEEN, evs);
    !Alive(evs) && (s.seen.Some? || s.overlay.None?)
  }

  /** The pane is listed alive in every tick; refreshes may be captured. */
  ghost predicate StaysAlive(evs: seq<Event>) {
    forall i :: 0 <= i < |evs| ==> evs[i].Captured? || (evs[i].Listed? && !evs[i].entry.dead)
  }

  lemma LifetimeStarts(before: seq<Event>, now: Instant, cfg: Config, e: Entry)
    requires Down(before) && !e.dead
    ensures var evs := before + [Listed(now, cfg, e)];
            && Lifetime(evs) == [TickOf(Fold(NEVER_SEEN, before), now, cfg, e)]
            && Fold(NEVER_SEEN, evs) == PaneState(Some(false), None, FoldAlive(Lifetime(evs)))
  {
    hide StepAlive, TickOf;
    var evs := before + [Listed(now, cfg, e)];
    assert evs[..|before|] == before;
    FlagIsAlive(before);
    assert Alive(evs);
    CachesHoldOneLifetime(evs);
  }

  /** One more event of a live pane, after two histories that left the same overlay pending. */
  lemma SameNextTick(a: seq<Event>, b: seq<Event>, ev: Event)
    requires StaysAlive([ev]) && Lifetime(a) != [] && Lifetime(b) != [] && Lifetime(a)[1..] == Lifetime(b)[1..]
    requires var s, t := Fold(NEVER_SEEN, a), Fold(NEVER_SEEN, b);
             s.overlay == t.overlay && s.seen == t.seen == Some(false)
    ensures Lifetime(a + [ev]) != [] && Lifetime(b + [ev]) != []
    ensures Lifetime(a + [ev])[0] == Lifetime(a)[0] && Lifetime(b + [ev])[0] == Lifetime(b)[0]
    ensures Lifetime(a + [ev])[1..] == Lifetime(b + [ev])[1..]
    ensures var s, t := Fold(NEVER_SEEN, a + [ev]), Fold(NEVER_SEEN, b + [ev]);
            s.overlay == t.overlay && s.seen == t.seen == Some(false)
  {
    hide StepAlive, ParseTail, Persists;
    assert [ev][0] == ev;
    assert (a + [ev])[..|a|] == a && (b + [ev])[..|b|] == b;
    if ev.Listed? {
      var tick := TickOf(Fold(NEVER_SEEN, a), ev.now, ev.cfg, ev.entry);
      assert Lifetime(a + [ev]) == Lifetime(a) + [tick];
      assert Lifetime(b + [ev]) == Lifetime(b) + [tick];
      assert (Lifetime(a) + [tick])[1..] == Lifetime(a)[1..] + [tick];
      assert (Lifetime(b) + [tick])[1..] == Lifetime(b)[1..] + [tick];
    }
  }

  /** Whatever came before a lifetime reaches no tick of it but the first, and that one only by its overlay: two
      histories continued alike have the same ticks, and without a difference in the pending overlay the same
      memory. */
  lemma {:induction false} OnlyFirstTickLeaks(a: seq<Event>, b: seq<Event>, now: Instant, cfg: Config, e: Entry,
                                              c: seq<Event>)
    requires Down(a) && Down(b) && !e.dead && StaysAlive(c)
    ensures var row := [Listed(now, cfg, e)];
            var s, t := Fold(NEVER_SEEN, a + row + c), Fold(NEVER_SEEN, b + row + c);
            var la, lb := Lifetime(a + row + c), Lifetime(b + row + c);
            && la != [] && lb != [] && la[1..] == lb[1..]
            && la[0] == TickOf(Fold(NEVER_SEEN, a), now, cfg, e) && lb[0] == TickOf(Fold(NEVER_SEEN, b), now, cfg, e)
            && s.overlay == t.overlay && s.seen == t.seen == Some(false)
            && (Fold(NEVER_SEEN, a).overlay == Fold(NEVER_SEEN, b).overlay ==> la == lb && s == t)
  {
    hide StepAlive, TickOf, Fold, Lifetime, Down;
    var row := [Listed(now, cfg, e)];
    var evsA, evsB := a + row + c, b + row + c;
    if c == [] {
      assert evsA == a + row && evsB == b + row;
      LifetimeStarts(a, now, cfg, e);
      LifetimeStarts(b, now, cfg, e);
    } else {
      var init, last := c[..|c| - 1], c[|c| - 1];
      OnlyFirstTickLeaks(a, b, now, cfg, e, init);
      assert evsA == a + row + init + [last] && evsB == b + row + init + [last];
      SameNextTick(a + row + init, b + row + init, last);
    }
    SameTicksSameMemory(a, b, evsA, evsB, now, cfg, e);
  }

  lemma SameTicksSameMemory(a: seq<Event>, b: seq<Event>, evsA: seq<Event>, evsB: seq<Event>, now: Instant,
                            cfg: Config, e: Entry)
    requires Lifetime(evsA) != [] && Lifetime(evsB) != [] && Lifetime(evsA)[1..] == Lifetime(evsB)[1..]
    requires Lifetime(evsA)[0] == TickOf(Fold(NEVER_SEEN, a), now, cfg, e)
    requires Lifetime(evsB)[0] == TickOf(Fold(NEVER_SEEN, b), now, cfg, e)
    requires Fold(NEVER_SEEN, evsA).overlay == Fold(NEVER_SEEN, evsB).overlay
    requires Fold(NEVER_SEEN, evsA).seen == Fold(NEVER_SEEN, evsB).seen == Some(false)
    ensures Fold(NEVER_SEEN, a).overlay == Fold(NEVER_SEEN, b).overlay ==>
              Lifetime(evsA) == Lifetime(evsB) && Fold(NEVER_SEEN, evsA) == Fold(NEVER_SEEN, evsB)
  {
    hide StepAlive, ParseTail, Fold, Lifetime;
    FlagIsAlive(evsA);
    FlagIsAlive(evsB);
    CachesHoldOneLifetime(evsA);
    CachesHoldOneLifetime(evsB);
    if Fold(NEVER_SEEN, a).overlay == Fold(NEVER_SEEN, b).overlay {
      assert Lifetime(evsA) == [Lifetime(evsA)[0]] + Lifetime(evsA)[1..];
      assert Lifetime(evsB) == [Lifetime(evsB)[0]] + Lifetime(evsB)[1..];
    }
  }

  // ----- What each cache holds, over the ticks of one lifetime -----

  ghost function Tails(ticks: seq<Tick>): seq<string> {
    seq(|ticks|, i requires 0 <= i < |ticks| => ticks[i].tail)
  }

  /** The capacity is fixed by the settings of the first tick of the lifetime. */
  ghost function Capacity(ticks: seq<Tick>): nat
    requires ticks != []
  {
    var polls := ticks[0].cfg.stillnessPolls;
    if polls < 2 then 2 else if polls > 12 then 12 else polls
  }

  /** The idle cause of tick `i`. */
  ghost function CauseAt(ticks: seq<Tick>, i: nat): Option<IdleCause>
    requires i < |ticks|
  {
    IdleCauseOf(ticks[i].facts, History(LastN(Tails(ticks[..i + 1]), Capacity(ticks)), Capacity(ticks)))
  }

  /** The history is the last `Capacity` tails of the lifetime. */
  lemma {:induction false} HistoryIsLastTails(ticks: seq<Tick>)
    requires ticks != []
    ensures FoldAlive(ticks).history == Some(History(LastN(Tails(ticks), Capacity(ticks)), Capacity(ticks)))
    ensures var h, n := FoldAlive(ticks).history.value, |ticks|;
            && |h.tails| == (if n < Capacity(ticks) then n else Capacity(ticks))
            && forall i :: 0 <= i < |h.tails| ==> h.tails[i] == ticks[n - |h.tails| + i].tail
  {
    hide IdleCauseOf, PushError, LastN;
    LastTails(ticks, Capacity(ticks));
    ClampIs(ticks[0].cfg.stillnessPolls);
    var before := ticks[..|ticks| - 1];
    if before != [] {
      HistoryIsLastTails(before);
      LastNPush(Tails(before), ticks[|ticks| - 1].tail, Capacity(ticks));
      assert Tails(ticks) == Tails(before) + [ticks[|ticks| - 1].tail];
    } else {
      assert FoldAlive(before) == EMPTY;
      assert Tails(ticks) == [] + [ticks[0].tail] == [ticks[0].tail];
    }
  }

  lemma LastTails(ticks: seq<Tick>, n: nat)
    ensures var tails := LastN(Tails(ticks), n);
            && |tails| == (if |ticks| < n then |ticks| else n)
            && forall i :: 0 <= i < |tails| ==> tails[i] == ticks[|ticks| - |tails| + i].tail
  {
  }

  lemma CauseIsRemembered(ticks: seq<Tick>)
    requires ticks != []
    ensures FoldAlive(ticks).idle == Some(CauseAt(ticks, |ticks| - 1))
  {
    hide IdleCauseOf;
    HistoryIsLastTails(ticks);
    assert ticks[..|ticks|] == ticks;
  }

  /** Ticks `from` to the last form the maximal run with the current cause. */
  ghost predicate CauseRun(ticks: seq<Tick>, from: nat) {
    && from < |ticks|
    && (forall i :: from <= i < |ticks| ==> CauseAt(ticks, i) == CauseAt(ticks, |ticks| - 1))
    && (from > 0 ==> CauseAt(ticks, from - 1) != CauseAt(ticks, |ticks| - 1))
  }

  /** The idle entry time is the instant of the first tick of the maximal run, within the lifetime,
      having the current idle cause; it is absent exactly when the pane is not idle. */
  lemma {:induction false} EntryTimeStartsRun(ticks: seq<Tick>) returns (from: nat)
    requires ticks != []
    ensures CauseRun(ticks, from)
    ensures FoldAlive(ticks).enteredAt == if CauseAt(ticks, |ticks| - 1).None? then None else Some(ticks[from].now)
  {
    hide CauseAt, FoldAlive;
    var n := |ticks| - 1;
    var before := ticks[..n];
    EntryTimeSteps(ticks);
    if n == 0 {
      from := 0;
    } else {
      var earlier := EntryTimeStartsRun(before);
      forall i | 0 <= i < n
        ensures CauseAt(before, i) == CauseAt(ticks, i)
      {
        CauseOfPrefix(ticks, i);
      }
      from := if CauseAt(ticks, n - 1) == CauseAt(ticks, n) then earlier else n;
    }
  }

  lemma CauseOfPrefix(ticks: seq<Tick>, i: nat)
    requires i < |ticks| - 1
    ensures CauseAt(ticks[..|ticks| - 1], i) == CauseAt(ticks, i)
  {
    hide IdleCauseOf;
    assert ticks[..|ticks| - 1][..i + 1] == ticks[..i + 1];
  }

  lemma EntryTimeSteps(ticks: seq<Tick>)
    requires ticks != []
    ensures var n, now := |ticks| - 1, ticks[|ticks| - 1].now;
            FoldAlive(ticks).enteredAt ==
              if n == 0 then Entered(None, CauseAt(ticks, 0), None, now)
              else Entered(CauseAt(ticks, n - 1), CauseAt(ticks, n), FoldAlive(ticks[..n]).enteredAt, now)
  {
    hide CauseAt, FoldAlive, Entered;
    var n := |ticks| - 1;
    CauseIsRemembered(ticks);
    EntryTimeUnfolds(ticks);
    if n > 0 {
      CauseIsRemembered(ticks[..n]);
      CauseOfPrefix(ticks, n - 1);
    } else {
      NoTicks();
      assert ticks[..n] == [];
    }
  }

  lemma NoTicks()
    ensures FoldAlive([]) == EMPTY
  {
  }

  lemma EntryTimeUnfolds(ticks: seq<Tick>)
    requires ticks != []
    ensures FoldAlive(ticks).idle.Some?
    ensures FoldAlive(ticks).enteredAt
         == Entered(LastCause(FoldAlive(ticks[..|ticks| - 1]).idle), FoldAlive(ticks).idle.value,
                    FoldAlive(ticks[..|ticks| - 1]).enteredAt, ticks[|ticks| - 1].now)
  {
    hide IdleCauseOf, PushTail, PushError, Entered, SnapshotDedup;
  }

  /** A pane is stale exactly when nothing on its path speaks against it (on the common path: no prompt marker) and
      its last full window of tails show the same lines; so it is never stale in the first `Capacity - 1` ticks. */
  lemma StaleIsStill(ticks: seq<Tick>)
    requires ticks != []
    ensures var n := |ticks|;
            CauseAt(ticks, n - 1) == Some(Stale) <==>
              && MayBeStale(ticks[n - 1].facts)
              && Capacity(ticks) <= n
              && forall i, j, line: nat :: n - Capacity(ticks) <= i < n && n - Capacity(ticks) <= j < n ==>
                    VisibleLine(ticks[i].tail, line) == VisibleLine(ticks[j].tail, line)
  {
    hide Normalized, VisibleLine, IdleCauseOf, MayBeStale;
    var n, cap := |ticks|, Capacity(ticks);
    assert ticks[..n] == ticks;
    var window := LastN(Tails(ticks), cap);
    IdleCauseIff(ticks[n - 1].facts, History(window, cap));
    assert cap <= n ==> |window| == cap && forall i :: 0 <= i < cap ==> window[i] == ticks[n - cap + i].tail;
    if cap <= n && Still(window, cap) {
      forall i, j, line: nat | n - cap <= i < n && n - cap <= j < n
        ensures VisibleLine(ticks[i].tail, line) == VisibleLine(ticks[j].tail, line)
      {
        assert Normalized(window[i - n + cap]) == Normalized(window[j - n + cap]);
        NormalizedEqualIff(ticks[i].tail, ticks[j].tail);
      }
    }
    if cap <= n && forall i, j, line: nat :: n - cap <= i < n && n - cap <= j < n ==>
                      VisibleLine(ticks[i].tail, line) == VisibleLine(ticks[j].tail, line) {
      forall i, j | 0 <= i < cap && 0 <= j < cap
        ensures Normalized(window[i]) == Normalized(window[j])
      {
        NormalizedEqualIff(ticks[n - cap + i].tail, ticks[n - cap + j].tail);
      }
    }
  }

  ghost function ErrorsAfter(ticks: seq<Tick>): seq<bool> {
    if ticks == [] then [] else PushError(ErrorsAfter(ticks[..|ticks| - 1]), ticks[|ticks| - 1])
  }

  lemma ErrorsAreRemembered(ticks: seq<Tick>)
    requires ticks != []
    ensures FoldAlive(ticks).errors == Some(ErrorsAfter(ticks))
  {
    hide IdleCauseOf, PushError;
    var before := ticks[..|ticks| - 1];
    if before != [] {
      ErrorsAreRemembered(before);
    } else {
      assert FoldAlive(before) == EMPTY && ErrorsAfter(before) == [];
    }
  }

  /** The length that tick `i` leaves to the error window: its own cap, and one more for each later tick. */
  function Room(ticks: seq<Tick>, i: nat): nat
    requires i < |ticks|
  {
    (if ticks[i].cfg.errorWindow == 0 then 1 else ticks[i].cfg.errorWindow) + (|ticks| - 1 - i)
  }

  /** The error window holds the newest hints of the lifetime, newest first, and as many of them as no
      tick's window forbids. */
  lemma {:induction false} ErrorsAreNewest(ticks: seq<Tick>)
    ensures var es := ErrorsAfter(ticks);
            && |es| <= |ticks|
            && (forall i :: 0 <= i < |es| ==> es[i] == ticks[|ticks| - 1 - i].facts.errorHint)
            && (forall i :: 0 <= i < |ticks| ==> |es| <= Room(ticks, i))
            && (|es| == |ticks| || exists i :: 0 <= i < |ticks| && |es| == Room(ticks, i))
  {
    if ticks != [] {
      var n := |ticks| - 1;
      var before := ticks[..n];
      ErrorsAreNewest(before);
      assert forall i :: 0 <= i < n ==> Room(ticks, i) == Room(before, i) + 1;
      var prev, es := ErrorsAfter(before), ErrorsAfter(ticks);
      if |es| < |prev| + 1 {
        assert |es| == Room(ticks, n);
      } else if |prev| < n {
        var i :| 0 <= i < n && |prev| == Room(before, i);
        assert |es| == Room(ticks, i);
      }
    }
  }

  ghost function Readings(ticks: seq<Tick>): seq<Reading> {
    seq(|ticks|, i requires 0 <= i < |ticks| => Reading(ticks[i].facts.provider, ticks[i].facts.pressures))
  }

  /** The pressure cache is that of the lifetime's readings, so `ReportsMostRecent` applies to it. */
  lemma {:induction false} PressureIsOfLifetime(ticks: seq<Tick>)
    ensures FoldAlive(ticks).pressure == CacheAfter(Readings(ticks))
  {
    hide IdleCauseOf, Applied;
    if ticks != [] {
      var before := ticks[..|ticks| - 1];
      PressureIsOfLifetime(before);
      assert Readings(ticks)[..|ticks| - 1] == Readings(before);
    }
  }

  ghost function SnapshotTicks(ticks: seq<Tick>): seq<Snap.Tick> {
    seq(|ticks|, i requires 0 <= i < |ticks| =>
      Snap.Tick(ticks[i].facts.recs, TakesSnapshots(ticks[i]), ticks[i].facts.resets))
  }

  /** The snapshot dedup is that of the lifetime's run, so the theorems on `RunLog` apply to it. */
  lemma {:induction false} DedupIsOfLifetime(ticks: seq<Tick>)
    ensures var d := FoldAlive(ticks).dedup;
            Snap.RunDedup(SnapshotTicks(ticks)) == if d.Some? then d.value else Snap.NO_SNAPSHOT
  {
    hide IdleCauseOf;
    if ticks != [] {
      var n := |ticks| - 1;
      var before := ticks[..n];
      DedupIsOfLifetime(before);
      var run, tick := SnapshotTicks(before), SnapshotTicks(ticks)[n];
      assert SnapshotTicks(ticks) == run + [tick];
      Snap.RunStep(run, tick);
      if tick.enabled {
        var log := Snap.Attempts(Snap.RunDedup(run), [], tick.recs, tick.resets);
        Snap.DedupAfterConcat(Snap.NO_SNAPSHOT, Snap.RunLog(run), log);
      } else {
        assert Snap.RunLog(run) + [] == Snap.RunLog(run);
      }
    }
  }
}
