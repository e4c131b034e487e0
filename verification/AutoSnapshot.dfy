/** Automatic snapshots at a quota reset boundary, never twice in a row for the same quota window. */
module AutoSnapshot {
  import opened Wrappers

  datatype QuotaKind = FiveHour | Weekly

  /** A recommendation as far as this module reads it: `extract_quota_kind` is the kind, and
      `writes` is what the snapshot writer answers if it is asked to act on it. */
  datatype Recommendation = Recommendation(quotaKind: Option<QuotaKind>, writes: bool)

  /** Provider-reported reset times, in Unix seconds. */
  datatype Resets = Resets(fiveHour: Option<nat>, weekly: Option<nat>) {
    function Of(kind: QuotaKind): Option<nat> {
      if kind == FiveHour then fiveHour else weekly
    }
  }

  function FloorToMinute(unixSeconds: nat): nat {
    unixSeconds - unixSeconds % 60
  }

  /** The window of a reset time is the minute it falls into. */
  lemma WindowIsMinute(x: nat, y: nat)
    ensures FloorToMinute(x) % 60 == 0 && x - 60 < FloorToMinute(x) <= x
    ensures FloorToMinute(x) == FloorToMinute(y) <==> x / 60 == y / 60
  {
  }

  /** The window of the last snapshot of each kind. */
  datatype Dedup = Dedup(fiveHour: Option<nat>, weekly: Option<nat>) {
    function Of(kind: QuotaKind): Option<nat> {
      if kind == FiveHour then fiveHour else weekly
    }

    predicate Matches(kind: QuotaKind, window: nat) {
      Of(kind) == Some(window)
    }

    function Set(kind: QuotaKind, window: nat): Dedup {
      if kind == FiveHour then this.(fiveHour := Some(window)) else this.(weekly := Some(window))
    }
  }

  /** The kinds do not touch each other. */
  lemma KindsAreSeparate(a: Option<nat>, b: Option<nat>, window: nat)
    ensures Resets(a, b).Of(FiveHour) == a && Resets(a, b).Of(Weekly) == b
    ensures Dedup(a, b).Set(FiveHour, window) == Dedup(Some(window), b)
    ensures Dedup(a, b).Set(Weekly, window) == Dedup(a, Some(window))
    ensures Dedup(a, b).Matches(FiveHour, window) <==> a == Some(window)
    ensures Dedup(a, b).Matches(Weekly, window) <==> b == Some(window)
  {
  }

  const NO_SNAPSHOT := Dedup(None, None)

  /** One call of the snapshot writer. */
  datatype Attempt = Attempt(kind: QuotaKind, window: nat, ok: bool)

  datatype Notice = Taken(kind: QuotaKind) | Failed(kind: QuotaKind)

  datatype AuditRow = SnapshotWritten(kind: QuotaKind, window: nat)

  function Notices(log: seq<Attempt>): seq<Notice> {
    if log == [] then []
    else
      var last := log[|log| - 1];
      Notices(log[..|log| - 1]) + [if last.ok then Taken(last.kind) else Failed(last.kind)]
  }

  function Audits(log: seq<Attempt>): seq<AuditRow> {
    if log == [] then []
    else
      var last := log[|log| - 1];
      Audits(log[..|log| - 1]) + if last.ok then [SnapshotWritten(last.kind, last.window)] else []
  }

  /** One notice for every attempt, telling its outcome and kind. */
  lemma {:induction false} NoticesTell(log: seq<Attempt>)
    ensures |Notices(log)| == |log|
    ensures forall i :: 0 <= i < |log| ==>
              Notices(log)[i] == if log[i].ok then Taken(log[i].kind) else Failed(log[i].kind)
  {
    if log != [] {
      NoticesTell(log[..|log| - 1]);
    }
  }

  /** The window of the last success of `kind` in `log`, or `start` when there is none. */
  ghost function LastWritten(start: Option<nat>, log: seq<Attempt>, kind: QuotaKind): Option<nat> {
    if log == [] then start
    else
      var last := log[|log| - 1];
      if last.ok && last.kind == kind then Some(last.window)
      else LastWritten(start, log[..|log| - 1], kind)
  }

  /** The dedup state that stands for the successes in `log`. */
  ghost function DedupAfter(start: Dedup, log: seq<Attempt>): Dedup {
    Dedup(LastWritten(start.fiveHour, log, FiveHour), LastWritten(start.weekly, log, Weekly))
  }

  /** The call of the writer that a recommendation leads to, if any. */
  ghost function AttemptFor(rec: Recommendation, resets: Resets, written: Dedup): seq<Attempt> {
    if rec.quotaKind.None? then []
    else
      var kind := rec.quotaKind.value;
      if resets.Of(kind).None? then []
      else
        var window := FloorToMinute(resets.Of(kind).value);
        if written.Matches(kind, window) then [] else [Attempt(kind, window, rec.writes)]
  }

  /** The calls of the writer made for `recs` after those in `log`: a recommendation is acted on
      unless the last success of its kind has its window. */
  ghost function Attempts(start: Dedup, log: seq<Attempt>, recs: seq<Recommendation>, resets: Resets): seq<Attempt> {
    if recs == [] then log
    else
      var before := Attempts(start, log, recs[..|recs| - 1], resets);
      before + AttemptFor(recs[|recs| - 1], resets, DedupAfter(start, before))
  }

  /** The calls of the writer in one tick, from the stored dedup state. */
  ghost function CallLog(recs: seq<Recommendation>, enabled: bool, resets: Resets, dedup: Dedup): seq<Attempt> {
    if enabled then Attempts(dedup, [], recs, resets) else []
  }

  /** `maybe_auto_snapshot`. The source appends to a notice list and a sink; here they are
      returned. */
  method MaybeAutoSnapshot(recs: seq<Recommendation>, enabled: bool, resets: Resets, dedup: Dedup)
    returns (newDedup: Dedup, notices: seq<Notice>, audits: seq<AuditRow>)
    ensures notices == Notices(CallLog(recs, enabled, resets, dedup))
    ensures audits == Audits(CallLog(recs, enabled, resets, dedup))
    ensures newDedup == DedupAfter(dedup, CallLog(recs, enabled, resets, dedup))
    ensures !enabled ==> newDedup == dedup && notices == [] && audits == []
  {
    hide Notices, Audits, DedupAfter;
    NoAttempts(dedup);
    newDedup, notices, audits := dedup, [], [];
    ghost var log := [];
    if !enabled {
      return;
    }
    for i := 0 to |recs|
      invariant log == Attempts(dedup, [], recs[..i], resets)
      invariant notices == Notices(log) && audits == Audits(log)
      invariant newDedup == DedupAfter(dedup, log)
    {
      var rec := recs[i];
      assert recs[..i + 1][..i] == recs[..i];
      assert log + [] == log;
      if rec.quotaKind.None? {
        continue;
      }
      var kind := rec.quotaKind.value;
      var resetsAt := resets.Of(kind);
      if resetsAt.None? {
        continue;
      }
      var window := FloorToMinute(resetsAt.value);
      if newDedup.Matches(kind, window) {
        continue;
      }
      LogGrows(dedup, log, Attempt(kind, window, rec.writes));
      if rec.writes {
        audits := audits + [SnapshotWritten(kind, window)];
        notices := notices + [Taken(kind)];
        newDedup := newDedup.Set(kind, window);
      } else {
        notices := notices + [Failed(kind)];
      }
      log := log + [Attempt(kind, window, rec.writes)];
    }
    assert recs[..|recs|] == recs;
  }

  lemma NoAttempts(start: Dedup)
    ensures Notices([]) == [] && Audits([]) == [] && DedupAfter(start, []) == start
  {
  }

  lemma LogGrows(start: Dedup, log: seq<Attempt>, a: Attempt)
    ensures Notices(log + [a]) == Notices(log) + [if a.ok then Taken(a.kind) else Failed(a.kind)]
    ensures Audits(log + [a]) == Audits(log) + if a.ok then [SnapshotWritten(a.kind, a.window)] else []
    ensures DedupAfter(start, log + [a])
         == if a.ok then DedupAfter(start, log).Set(a.kind, a.window) else DedupAfter(start, log)
  {
    assert (log + [a])[..|log|] == log;
  }

  // ----- Runs of ticks within one pane lifetime -----

  datatype Tick = Tick(recs: seq<Recommendation>, enabled: bool, resets: Resets)

  /** The calls of the writer over a run of ticks, from no snapshot. */
  ghost function RunLog(ticks: seq<Tick>): seq<Attempt> {
    if ticks == [] then []
    else
      var log := RunLog(ticks[..|ticks| - 1]);
      var last := ticks[|ticks| - 1];
      if last.enabled then Attempts(NO_SNAPSHOT, log, last.recs, last.resets) else log
  }

  /** The dedup state after a run of ticks, each handled by `MaybeAutoSnapshot`. */
  ghost function RunDedup(ticks: seq<Tick>): Dedup {
    DedupAfter(NO_SNAPSHOT, RunLog(ticks))
  }

  lemma {:induction false} LastWrittenConcat(start: Option<nat>, a: seq<Attempt>, b: seq<Attempt>, kind: QuotaKind)
    ensures LastWritten(start, a + b, kind) == LastWritten(LastWritten(start, a, kind), b, kind)
  {
    if b == [] {
      assert a + b == a;
    } else {
      LastWrittenConcat(start, a, b[..|b| - 1], kind);
      assert (a + b)[..|a + b| - 1] == a + b[..|b| - 1];
    }
  }

  lemma DedupAfterConcat(start: Dedup, a: seq<Attempt>, b: seq<Attempt>)
    ensures DedupAfter(start, a + b) == DedupAfter(DedupAfter(start, a), b)
  {
    hide LastWritten;
    LastWrittenConcat(start.fiveHour, a, b, FiveHour);
    LastWrittenConcat(start.weekly, a, b, Weekly);
  }

  /** Handling a tick from the stored dedup state does what looking back over the whole run would do. */
  lemma {:induction false} DedupSummarizesLog(start: Dedup, log: seq<Attempt>, recs: seq<Recommendation>,
                                              resets: Resets)
    ensures Attempts(start, log, recs, resets) == log + Attempts(DedupAfter(start, log), [], recs, resets)
  {
    hide DedupAfter;
    if recs == [] {
      assert log + [] == log;
    } else {
      DedupSummarizesLog(start, log, recs[..|recs| - 1], resets);
      var here := Attempts(DedupAfter(start, log), [], recs[..|recs| - 1], resets);
      DedupAfterConcat(start, log, here);
      var next := AttemptFor(recs[|recs| - 1], resets, DedupAfter(start, log + here));
      assert log + (here + next) == (log + here) + next;
    }
  }

  /** One more tick: the method's outcome from the stored state extends the run's log and state. */
  lemma RunStep(ticks: seq<Tick>, tick: Tick)
    ensures RunLog(ticks + [tick])
         == RunLog(ticks) + if tick.enabled then Attempts(RunDedup(ticks), [], tick.recs, tick.resets) else []
  {
    assert (ticks + [tick])[..|ticks|] == ticks;
    if tick.enabled {
      DedupSummarizesLog(NO_SNAPSHOT, RunLog(ticks), tick.recs, tick.resets);
    }
  }

  /** No attempt repeats the window of the last success of its kind. */
  ghost predicate Deduped(log: seq<Attempt>) {
    forall i :: 0 <= i < |log| ==> LastWritten(None, log[..i], log[i].kind) != Some(log[i].window)
  }

  /** Every attempt carries the floored reset time of a tick, and the order of the log is the order of the ticks. */
  lemma {:induction false} AttemptsExtend(log: seq<Attempt>, recs: seq<Recommendation>, resets: Resets)
    requires Deduped(log)
    ensures var r := Attempts(NO_SNAPSHOT, log, recs, resets);
            && log <= r && Deduped(r)
            && forall i :: |log| <= i < |r| ==>
                  resets.Of(r[i].kind).Some? && r[i].window == FloorToMinute(resets.Of(r[i].kind).value)
  {
    if recs != [] {
      AttemptsExtend(log, recs[..|recs| - 1], resets);
      var before := Attempts(NO_SNAPSHOT, log, recs[..|recs| - 1], resets);
      var r := Attempts(NO_SNAPSHOT, log, recs, resets);
      assert before <= r;
      forall i | 0 <= i < |r|
        ensures LastWritten(None, r[..i], r[i].kind) != Some(r[i].window)
      {
        assert r[..i] == before[..i];
      }
    }
  }

  lemma {:induction false} RunIsDeduped(ticks: seq<Tick>)
    ensures Deduped(RunLog(ticks))
  {
    if ticks != [] {
      RunIsDeduped(ticks[..|ticks| - 1]);
      var last := ticks[|ticks| - 1];
      AttemptsExtend(RunLog(ticks[..|ticks| - 1]), last.recs, last.resets);
    }
  }

  // ----- The windows that are written -----

  /** The windows of the successes of `kind`, in order. */
  ghost function Written(log: seq<Attempt>, kind: QuotaKind): seq<nat> {
    if log == [] then []
    else
      var last := log[|log| - 1];
      Written(log[..|log| - 1], kind) + if last.ok && last.kind == kind then [last.window] else []
  }

  /** The window that a recommendation offers to a writer that can write it. */
  ghost function OfferOf(rec: Recommendation, resets: Resets, kind: QuotaKind): seq<nat> {
    if rec.quotaKind == Some(kind) && rec.writes && resets.Of(kind).Some? then
      [FloorToMinute(resets.Of(kind).value)]
    else []
  }

  /** The windows that the recommendations of one tick offer. */
  ghost function OffersIn(recs: seq<Recommendation>, resets: Resets, kind: QuotaKind): seq<nat> {
    if recs == [] then []
    else OffersIn(recs[..|recs| - 1], resets, kind) + OfferOf(recs[|recs| - 1], resets, kind)
  }

  ghost function Offers(ticks: seq<Tick>, kind: QuotaKind): seq<nat> {
    if ticks == [] then []
    else
      var last := ticks[|ticks| - 1];
      Offers(ticks[..|ticks| - 1], kind) + if last.enabled then OffersIn(last.recs, last.resets, kind) else []
  }

  /** Consecutive repeats squeezed out. */
  ghost function Squeeze(s: seq<nat>): seq<nat> {
    if |s| <= 1 then s
    else if s[|s| - 1] == s[|s| - 2] then Squeeze(s[..|s| - 1])
    else Squeeze(s[..|s| - 1]) + [s[|s| - 1]]
  }

  lemma {:induction false} SqueezeKeeps(s: seq<nat>)
    ensures forall x :: x in Squeeze(s) <==> x in s
    ensures s == [] <==> Squeeze(s) == []
    ensures s != [] ==> Squeeze(s)[|Squeeze(s)| - 1] == s[|s| - 1]
    ensures forall i :: 0 <= i < |Squeeze(s)| - 1 ==> Squeeze(s)[i] != Squeeze(s)[i + 1]
  {
    if |s| > 1 {
      SqueezeKeeps(s[..|s| - 1]);
      assert s == s[..|s| - 1] + [s[|s| - 1]];
    }
  }

  lemma {:induction false} LastWrittenIs(log: seq<Attempt>, kind: QuotaKind)
    ensures var ws := Written(log, kind);
            LastWritten(None, log, kind) == if ws == [] then None else Some(ws[|ws| - 1])
  {
    if log != [] {
      LastWrittenIs(log[..|log| - 1], kind);
    }
  }

  lemma WrittenGrows(log: seq<Attempt>, a: Attempt, kind: QuotaKind)
    ensures Written(log + [a], kind) == Written(log, kind) + if a.ok && a.kind == kind then [a.window] else []
  {
    assert (log + [a])[..|log|] == log;
  }

  lemma SqueezeGrows(s: seq<nat>, x: nat)
    ensures Squeeze(s + [x]) == if s != [] && s[|s| - 1] == x then Squeeze(s) else Squeeze(s) + [x]
  {
    assert (s + [x])[..|s|] == s;
  }

  lemma RecWritesOffer(log: seq<Attempt>, offered: seq<nat>, rec: Recommendation, resets: Resets, kind: QuotaKind)
    requires Written(log, kind) == Squeeze(offered)
    ensures Written(log + AttemptFor(rec, resets, DedupAfter(NO_SNAPSHOT, log)), kind)
         == Squeeze(offered + OfferOf(rec, resets, kind))
  {
    hide Written, Squeeze, LastWritten;
    LastWrittenIs(log, kind);
    SqueezeKeeps(offered);
    if rec.quotaKind.Some? && resets.Of(rec.quotaKind.value).Some? {
      var window := FloorToMinute(resets.Of(rec.quotaKind.value).value);
      WrittenGrows(log, Attempt(rec.quotaKind.value, window, rec.writes), kind);
      SqueezeGrows(offered, window);
    }
    assert log + [] == log && offered + [] == offered;
  }

  lemma {:induction false} TickWritesOffers(log: seq<Attempt>, offered: seq<nat>, recs: seq<Recommendation>,
                                            resets: Resets, kind: QuotaKind)
    requires Written(log, kind) == Squeeze(offered)
    ensures Written(Attempts(NO_SNAPSHOT, log, recs, resets), kind) == Squeeze(offered + OffersIn(recs, resets, kind))
  {
    hide Written, Squeeze, DedupAfter, AttemptFor, OfferOf;
    if recs == [] {
      assert offered + [] == offered;
    } else {
      var init, rec := recs[..|recs| - 1], recs[|recs| - 1];
      TickWritesOffers(log, offered, init, resets, kind);
      var before, all := Attempts(NO_SNAPSHOT, log, init, resets), offered + OffersIn(init, resets, kind);
      RecWritesOffer(before, all, rec, resets, kind);
      assert offered + OffersIn(recs, resets, kind) == all + OfferOf(rec, resets, kind);
    }
  }

  /** The windows written are the windows offered, consecutive repeats squeezed out. */
  lemma {:induction false} WritesSqueezedOffers(ticks: seq<Tick>, kind: QuotaKind)
    ensures Written(RunLog(ticks), kind) == Squeeze(Offers(ticks, kind))
  {
    hide Written, Squeeze, OffersIn, Attempts;
    if ticks == [] {
      assert Written([], kind) == Squeeze([]) by {
        NothingWritten(kind);
      }
    } else {
      var init, last := ticks[..|ticks| - 1], ticks[|ticks| - 1];
      WritesSqueezedOffers(init, kind);
      TickWritesOffers(RunLog(init), Offers(init, kind), last.recs, last.resets, kind);
      if last.enabled {
        assert RunLog(ticks) == Attempts(NO_SNAPSHOT, RunLog(init), last.recs, last.resets);
        assert Offers(ticks, kind) == Offers(init, kind) + OffersIn(last.recs, last.resets, kind);
      } else {
        assert RunLog(ticks) == RunLog(init);
        assert Offers(ticks, kind) == Offers(init, kind) + [] == Offers(init, kind);
      }
    }
  }

  lemma NothingWritten(kind: QuotaKind)
    ensures Written([], kind) == Squeeze([])
  {
  }

  /** Over any run of ticks, two successive snapshots of the same kind are for different windows. */
  lemma SuccessiveWindowsDiffer(ticks: seq<Tick>, kind: QuotaKind, i: nat)
    requires i < |Written(RunLog(ticks), kind)| - 1
    ensures Written(RunLog(ticks), kind)[i] != Written(RunLog(ticks), kind)[i + 1]
  {
    WritesSqueezedOffers(ticks, kind);
    SqueezeKeeps(Offers(ticks, kind));
  }

  ghost predicate NoRepeats(s: seq<nat>) {
    forall i, j :: 0 <= i < j < |s| ==> s[i] != s[j]
  }

  /** Equal items stand next to each other, in one block. */
  ghost predicate InBlocks(s: seq<nat>) {
    forall i, j, k :: 0 <= i < j < k < |s| && s[i] == s[k] ==> s[j] == s[i]
  }

  lemma BlockGrows(s: seq<nat>, x: nat)
    requires s != []
    ensures InBlocks(s + [x]) <==> InBlocks(s) && (x in s ==> x == s[|s| - 1])
  {
    var longer := s + [x];
    assert forall i :: 0 <= i < |s| ==> longer[i] == s[i];
    if x in s && InBlocks(longer) {
      var i :| 0 <= i < |s| && s[i] == x;
      assert longer[|s|] == x == longer[i];
    }
    if InBlocks(s) && x == s[|s| - 1] {
      forall i, j | 0 <= i < j < |s| && s[i] == x
        ensures s[j] == x
      {
        assert s[i] == s[|s| - 1];
      }
    }
  }

  lemma RepeatGrows(s: seq<nat>, x: nat)
    ensures NoRepeats(s + [x]) <==> NoRepeats(s) && x !in s
  {
    var longer := s + [x];
    assert forall i :: 0 <= i < |s| ==> longer[i] == s[i];
    if x in s {
      var i :| 0 <= i < |s| && s[i] == x;
      assert longer[i] == longer[|s|];
    }
  }

  lemma {:induction false} SqueezedBlocks(s: seq<nat>)
    ensures NoRepeats(Squeeze(s)) <==> InBlocks(s)
  {
    hide NoRepeats, InBlocks;
    if |s| <= 1 {
      assert NoRepeats(s) && InBlocks(s) by {
        ShortIsPlain(s);
      }
    } else {
      var init, x := s[..|s| - 1], s[|s| - 1];
      SqueezedBlocks(init);
      SqueezeKeeps(init);
      assert s == init + [x];
      BlockGrows(init, x);
      RepeatGrows(Squeeze(init), x);
    }
  }

  lemma ShortIsPlain(s: seq<nat>)
    requires |s| <= 1
    ensures NoRepeats(s) && InBlocks(s)
  {
  }

  /** Each window of a kind is written at most once exactly when the offers of every window form one block:
      no other window of the kind is offered in between. */
  lemma WrittenAtMostOnce(ticks: seq<Tick>, kind: QuotaKind)
    ensures NoRepeats(Written(RunLog(ticks), kind)) <==> InBlocks(Offers(ticks, kind))
  {
    hide Squeeze, RunLog, InBlocks, NoRepeats;
    WritesSqueezedOffers(ticks, kind);
    SqueezedBlocks(Offers(ticks, kind));
  }

  /** The floored reset times of a kind never go back. */
  ghost predicate NeverBack(ticks: seq<Tick>, kind: QuotaKind) {
    forall i, j :: 0 <= i < j < |ticks| && ticks[i].resets.Of(kind).Some? && ticks[j].resets.Of(kind).Some? ==>
      FloorToMinute(ticks[i].resets.Of(kind).value) <= FloorToMinute(ticks[j].resets.Of(kind).value)
  }

  ghost predicate FromTick(ticks: seq<Tick>, kind: QuotaKind, window: nat) {
    exists t :: 0 <= t < |ticks| && ticks[t].resets.Of(kind).Some?
                && window == FloorToMinute(ticks[t].resets.Of(kind).value)
  }

  ghost predicate Ascending(s: seq<nat>) {
    forall i, j :: 0 <= i < j < |s| ==> s[i] <= s[j]
  }

  lemma {:induction false} OneOffer(recs: seq<Recommendation>, resets: Resets, kind: QuotaKind)
    ensures forall x :: x in OffersIn(recs, resets, kind) ==>
              resets.Of(kind).Some? && x == FloorToMinute(resets.Of(kind).value)
  {
    if recs != [] {
      OneOffer(recs[..|recs| - 1], resets, kind);
    }
  }

  lemma {:induction false} OffersAscend(ticks: seq<Tick>, kind: QuotaKind)
    requires NeverBack(ticks, kind)
    ensures Ascending(Offers(ticks, kind))
    ensures forall x :: x in Offers(ticks, kind) ==> FromTick(ticks, kind, x)
  {
    if ticks != [] {
      var n := |ticks| - 1;
      var init, new' := ticks[..n], OffersIn(ticks[n].recs, ticks[n].resets, kind);
      OffersAscend(init, kind);
      OneOffer(ticks[n].recs, ticks[n].resets, kind);
      forall x | x in Offers(init, kind)
        ensures FromTick(ticks, kind, x)
        ensures forall y :: y in new' ==> x <= y
      {
        var t :| 0 <= t < n && init[t].resets.Of(kind).Some? && x == FloorToMinute(init[t].resets.Of(kind).value);
        assert ticks[t] == init[t];
      }
      forall i, j | 0 <= i < j < |Offers(ticks, kind)|
        ensures Offers(ticks, kind)[i] <= Offers(ticks, kind)[j]
      {
        var k := |Offers(init, kind)|;
        assert i < k ==> Offers(init, kind)[i] in Offers(init, kind);
        assert j >= k && Offers(ticks, kind) != Offers(init, kind) ==> new'[j - k] in new';
        assert i >= k && Offers(ticks, kind) != Offers(init, kind) ==> new'[i - k] in new';
      }
    }
  }

  /** In particular it is so when the floored reset times of the kind never go back. */
  lemma NeverBackWritesOnce(ticks: seq<Tick>, kind: QuotaKind)
    requires NeverBack(ticks, kind)
    ensures Ascending(Written(RunLog(ticks), kind)) && NoRepeats(Written(RunLog(ticks), kind))
  {
    hide Squeeze, RunLog, NeverBack;
    var offers := Offers(ticks, kind);
    OffersAscend(ticks, kind);
    WrittenAtMostOnce(ticks, kind);
    WritesSqueezedOffers(ticks, kind);
    SqueezeAscends(offers);
  }

  lemma {:induction false} SqueezeAscends(s: seq<nat>)
    requires Ascending(s)
    ensures Ascending(Squeeze(s))
  {
    if |s| > 1 {
      var init := s[..|s| - 1];
      SqueezeAscends(init);
      SqueezeKeeps(init);
      assert forall i :: 0 <= i < |Squeeze(init)| ==> Squeeze(init)[i] in init;
    }
  }

  /** A tick that recommends a snapshot of one kind. */
  function OneTick(kind: QuotaKind, at: nat, writes: bool): Tick {
    Tick([Recommendation(Some(kind), writes)], true,
         if kind == FiveHour then Resets(Some(at), None) else Resets(None, Some(at)))
  }

  lemma OneTickRuns(ticks: seq<Tick>, kind: QuotaKind, at: nat, writes: bool)
    ensures RunLog(ticks + [OneTick(kind, at, writes)])
         == RunLog(ticks) + if LastWritten(None, RunLog(ticks), kind) == Some(FloorToMinute(at)) then []
                            else [Attempt(kind, FloorToMinute(at), writes)]
  {
    hide RunLog, LastWritten;
    var tick := OneTick(kind, at, writes);
    RunStep(ticks, tick);
    assert tick.recs[..0] == [];
    assert Attempts(RunDedup(ticks), [], tick.recs[..0], tick.resets) == [];
    NoAttempts(RunDedup(ticks));
  }

  /** The hypothesis is needed: a reset time that goes back writes its window a second time. */
  lemma GoingBackWritesTwice()
    ensures RunLog([OneTick(FiveHour, 60, true), OneTick(FiveHour, 120, true), OneTick(FiveHour, 60, true)])
         == [Attempt(FiveHour, 60, true), Attempt(FiveHour, 120, true), Attempt(FiveHour, 60, true)]
  {
    hide RunLog, Attempts;
    var a, b, c := OneTick(FiveHour, 60, true), OneTick(FiveHour, 120, true), OneTick(FiveHour, 60, true);
    var x, y := Attempt(FiveHour, 60, true), Attempt(FiveHour, 120, true);
    EmptyRun();
    OneTickRuns([], FiveHour, 60, true);
    assert [] + [a] == [a] && [] + [x] == [x];
    OneTickRuns([a], FiveHour, 120, true);
    assert [a] + [b] == [a, b] && [x] + [y] == [x, y];
    OneTickRuns([a, b], FiveHour, 60, true);
    assert [a, b] + [c] == [a, b, c] && [x, y] + [x] == [x, y, x];
  }

  lemma EmptyRun()
    ensures RunLog([]) == []
  {
  }

  /** The recommendations ask for `kind` in the window. */
  ghost predicate Recommends(recs: seq<Recommendation>, resets: Resets, kind: QuotaKind, window: nat) {
    && resets.Of(kind).Some? && FloorToMinute(resets.Of(kind).value) == window
    && exists i :: 0 <= i < |recs| && recs[i].quotaKind == Some(kind)
  }

  /** As long as the last success of the kind has another window, a recommended window is tried. */
  lemma {:induction false} RecommendedIsTried(log: seq<Attempt>, recs: seq<Recommendation>, resets: Resets,
                                              kind: QuotaKind)
    requires resets.Of(kind).Some?
    requires LastWritten(None, log, kind) != Some(FloorToMinute(resets.Of(kind).value))
    ensures var window, r := FloorToMinute(resets.Of(kind).value), Attempts(NO_SNAPSHOT, log, recs, resets);
            && log <= r
            && if Recommends(recs, resets, kind, window) then
                 exists n :: |log| <= n < |r| && r[n].kind == kind && r[n].window == window
               else LastWritten(None, r, kind) == LastWritten(None, log, kind)
  {
    hide LastWritten, DedupAfter;
    if recs != [] {
      var init, rec := recs[..|recs| - 1], recs[|recs| - 1];
      var window := FloorToMinute(resets.Of(kind).value);
      var before, r := Attempts(NO_SNAPSHOT, log, init, resets), Attempts(NO_SNAPSHOT, log, recs, resets);
      RecommendedIsTried(log, init, resets, kind);
      LastWrittenSteps(before, rec, resets, kind);
      assert forall i :: 0 <= i < |init| ==> init[i] == recs[i];
      if Recommends(init, resets, kind, window) {
        var n :| |log| <= n < |before| && before[n].kind == kind && before[n].window == window;
        assert r[n] == before[n];
      } else if rec.quotaKind == Some(kind) {
        assert r[|before|].kind == kind && r[|before|].window == window;
      }
    }
  }

  lemma LastWrittenSteps(log: seq<Attempt>, rec: Recommendation, resets: Resets, kind: QuotaKind)
    ensures var last := LastWritten(None, log, kind);
            var next := AttemptFor(rec, resets, DedupAfter(NO_SNAPSHOT, log));
            && (rec.quotaKind != Some(kind) ==> LastWritten(None, log + next, kind) == last)
            && (rec.quotaKind == Some(kind) && resets.Of(kind).Some?
                && last != Some(FloorToMinute(resets.Of(kind).value)) ==>
                  next == [Attempt(kind, FloorToMinute(resets.Of(kind).value), rec.writes)])
            && (rec.quotaKind == Some(kind) && resets.Of(kind).Some?
                && last == Some(FloorToMinute(resets.Of(kind).value)) ==>
                  next == [])
            && (next != [] ==> next == [next[0]] && Some(next[0].kind) == rec.quotaKind)
  {
    var next := AttemptFor(rec, resets, DedupAfter(NO_SNAPSHOT, log));
    if next == [] {
      assert log + next == log;
    } else {
      assert (log + next)[..|log|] == log;
    }
  }

  /** Attempt `f` failed, and its kind was not written since. */
  ghost predicate StillFailed(log: seq<Attempt>, f: nat) {
    f < |log| && !log[f].ok && forall j :: f < j < |log| && log[j].ok ==> log[j].kind != log[f].kind
  }

  lemma {:induction false} FailureIsNotWritten(log: seq<Attempt>, f: nat)
    requires Deduped(log) && StillFailed(log, f)
    ensures LastWritten(None, log, log[f].kind) != Some(log[f].window)
  {
    var n := |log| - 1;
    if f < n {
      assert forall i :: 0 <= i < n ==> log[..n][..i] == log[..i];
      FailureIsNotWritten(log[..n], f);
    }
  }

  /** A failed write leaves the dedup state unchanged: whatever else happened since, and whatever else the next
      tick recommends, the window is tried again as soon as it is recommended again. */
  lemma FailureIsRetried(ticks: seq<Tick>, f: nat, tick: Tick)
    requires StillFailed(RunLog(ticks), f) && tick.enabled
    requires Recommends(tick.recs, tick.resets, RunLog(ticks)[f].kind, RunLog(ticks)[f].window)
    ensures var log, longer := RunLog(ticks), RunLog(ticks + [tick]);
            && log <= longer
            && exists n :: |log| <= n < |longer| && longer[n].kind == log[f].kind && longer[n].window == log[f].window
  {
    var log := RunLog(ticks);
    RunIsDeduped(ticks);
    FailureIsNotWritten(log, f);
    assert (ticks + [tick])[..|ticks|] == ticks;
    RecommendedIsTried(log, tick.recs, tick.resets, log[f].kind);
  }

  // ----- Jitter of the reset times -----

  ghost predicate ResetsAt(resets: Resets, kind: QuotaKind, at: nat) {
    match kind
    case FiveHour => resets.fiveHour == Some(at)
    case Weekly => resets.weekly == Some(at)
  }

  /** Success `f` is the last of its kind. */
  ghost predicate LastSuccess(log: seq<Attempt>, f: nat) {
    f < |log| && log[f].ok && forall j :: f < j < |log| && log[j].ok ==> log[j].kind != log[f].kind
  }

  lemma {:induction false} LastSuccessIsWritten(log: seq<Attempt>, f: nat)
    requires LastSuccess(log, f)
    ensures LastWritten(None, log, log[f].kind) == Some(log[f].window)
  {
    var n := |log| - 1;
    if f < n {
      LastSuccessIsWritten(log[..n], f);
    }
  }

  lemma {:induction false} WrittenWindowIsSkipped(log: seq<Attempt>, recs: seq<Recommendation>, resets: Resets,
                                                  kind: QuotaKind, at: nat)
    requires ResetsAt(resets, kind, at) && LastWritten(None, log, kind) == Some(FloorToMinute(at))
    ensures var r := Attempts(NO_SNAPSHOT, log, recs, resets);
            && log <= r
            && LastWritten(None, r, kind) == Some(FloorToMinute(at))
            && forall n :: |log| <= n < |r| ==> r[n].kind != kind
  {
    hide LastWritten, DedupAfter, AttemptFor;
    if recs != [] {
      var init, rec := recs[..|recs| - 1], recs[|recs| - 1];
      WrittenWindowIsSkipped(log, init, resets, kind, at);
      var before := Attempts(NO_SNAPSHOT, log, init, resets);
      LastWrittenSteps(before, rec, resets, kind);
      assert before + [] == before;
    }
  }

  /** Reset times that jitter within a minute are one window: after a success no tick whose reset time is in the same
      minute tries the kind again, whatever else it recommends. */
  lemma JitterIsAbsorbed(ticks: seq<Tick>, f: nat, tick: Tick, at: nat)
    requires LastSuccess(RunLog(ticks), f) && ResetsAt(tick.resets, RunLog(ticks)[f].kind, at)
    requires RunLog(ticks)[f].window / 60 == at / 60 && RunLog(ticks)[f].window % 60 == 0
    ensures var log, longer := RunLog(ticks), RunLog(ticks + [tick]);
            && log <= longer
            && forall n :: |log| <= n < |longer| ==> longer[n].kind != log[f].kind
  {
    var log := RunLog(ticks);
    LastSuccessIsWritten(log, f);
    WindowIsMinute(at, log[f].window);
    assert (ticks + [tick])[..|ticks|] == ticks;
    if tick.enabled {
      WrittenWindowIsSkipped(log, tick.recs, tick.resets, log[f].kind, at);
    }
  }

  /** Two ticks that recommend a kind write once when their reset times are in the same minute, and twice otherwise. */
  lemma TwoTicksWrite(kind: QuotaKind, a: nat, b: nat)
    ensures RunLog([OneTick(kind, a, true), OneTick(kind, b, true)])
         == [Attempt(kind, a / 60 * 60, true)] + if a / 60 == b / 60 then [] else [Attempt(kind, b / 60 * 60, true)]
  {
    hide RunLog;
    var first, second := OneTick(kind, a, true), OneTick(kind, b, true);
    WindowIsMinute(a, b);
    WindowIsMinute(b, a);
    EmptyRun();
    OneTickRuns([], kind, a, true);
    assert [] + [first] == [first];
    OneTickRuns([first], kind, b, true);
    assert [first] + [second] == [first, second];
  }
}
