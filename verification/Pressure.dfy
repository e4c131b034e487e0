/** The per-pane cache that keeps a Claude pane's last parsed pressures alive. */
module Pressure {
  import opened Wrappers

  datatype Provider = Claude | Codex | Gemini | Antigravity | Qmonster | Unknown

  datatype Metric = Context | Quota | Quota5h | QuotaWeekly

  /** The four pressures of a signal set. */
  datatype Pressures = Pressures(
    context: Option<real>,
    quota: Option<real>,
    quota5h: Option<real>,
    quotaWeekly: Option<real>)
  {
    function Of(m: Metric): Option<real> {
      match m
      case Context => context
      case Quota => quota
      case Quota5h => quota5h
      case QuotaWeekly => quotaWeekly
    }
  }

  const NO_PRESSURES := Pressures(None, None, None, None)

  datatype Cache = Cache(provider: Option<Provider>, pressures: Pressures)

  /** `apply_pressure_metric_cache`, for one pane. The cache is the pane's entry in the map,
      and the signals are passed in and handed back. */
  method ApplyPressureMetricCache(entry: Option<Cache>, provider: Provider, signals: Pressures)
    returns (newEntry: Option<Cache>, reported: Pressures)
    ensures (newEntry, reported) == Applied(entry, provider, signals)
  {
    reported := signals;
    if provider != Claude {
      newEntry := None;
      return;
    }
    var cache := if entry.Some? then entry.value else Cache(None, NO_PRESSURES);
    if cache.provider != Some(provider) {
      cache := Cache(Some(provider), NO_PRESSURES);
    }
    if reported.context.Some? {
      cache := cache.(pressures := cache.pressures.(context := reported.context));
    } else {
      reported := reported.(context := cache.pressures.context);
    }
    if reported.quota.Some? {
      cache := cache.(pressures := cache.pressures.(quota := reported.quota));
    } else {
      reported := reported.(quota := cache.pressures.quota);
    }
    if reported.quota5h.Some? {
      cache := cache.(pressures := cache.pressures.(quota5h := reported.quota5h));
    } else {
      reported := reported.(quota5h := cache.pressures.quota5h);
    }
    if reported.quotaWeekly.Some? {
      cache := cache.(pressures := cache.pressures.(quotaWeekly := reported.quotaWeekly));
    } else {
      reported := reported.(quotaWeekly := cache.pressures.quotaWeekly);
    }
    newEntry := Some(cache);
  }

  /** The cache after one tick and the pressures reported by it. */
  function Applied(entry: Option<Cache>, provider: Provider, signals: Pressures): (Option<Cache>, Pressures) {
    if provider != Claude then (None, signals)
    else
      var kept := if entry.Some? && entry.value.provider == Some(Claude) then entry.value.pressures else NO_PRESSURES;
      var filled := Pressures(
        OrElse(signals.context, kept.context),
        OrElse(signals.quota, kept.quota),
        OrElse(signals.quota5h, kept.quota5h),
        OrElse(signals.quotaWeekly, kept.quotaWeekly));
      (Some(Cache(Some(Claude), filled)), filled)
  }

  // ----- Runs of ticks within one pane lifetime -----

  datatype Reading = Reading(provider: Provider, parsed: Pressures)

  /** The cache after a run of ticks, from no entry. */
  ghost function CacheAfter(run: seq<Reading>): Option<Cache> {
    if run == [] then None
    else
      var last := run[|run| - 1];
      Applied(CacheAfter(run[..|run| - 1]), last.provider, last.parsed).0
  }

  /** What the last tick of a run reports. */
  ghost function Reported(run: seq<Reading>): Pressures
    requires run != []
  {
    var last := run[|run| - 1];
    Applied(CacheAfter(run[..|run| - 1]), last.provider, last.parsed).1
  }

  /** Ticks `from` onwards are all Claude, and the one before is not. */
  ghost predicate BecameClaude(run: seq<Reading>, from: nat) {
    && from < |run|
    && (forall i :: from <= i < |run| ==> run[i].provider == Claude)
    && (from > 0 ==> run[from - 1].provider != Claude)
  }

  /** Tick `i` parsed the value, and no later tick parsed one. */
  ghost predicate MostRecent(run: seq<Reading>, m: Metric, i: nat) {
    && i < |run|
    && run[i].parsed.Of(m).Some?
    && forall j :: i < j < |run| ==> run[j].parsed.Of(m).None?
  }

  /** A Claude pane is reported, for each metric, the most recent value parsed since the pane last
      became Claude, and nothing when no value was parsed since. */
  lemma {:induction false} ReportsMostRecent(run: seq<Reading>, from: nat, m: Metric)
    requires BecameClaude(run, from)
    ensures Reported(run).Of(m).Some? <==> exists i :: from <= i < |run| && MostRecent(run, m, i)
    ensures forall i :: from <= i < |run| && MostRecent(run, m, i) ==> Reported(run).Of(m) == run[i].parsed.Of(m)
    ensures CacheAfter(run) == Some(Cache(Some(Claude), Reported(run)))
  {
    var n := |run| - 1;
    var init := run[..n];
    if from < n {
      ReportsMostRecent(init, from, m);
      if run[n].parsed.Of(m).None? {
        assert forall i :: 0 <= i < n ==> (MostRecent(run, m, i) <==> MostRecent(init, m, i));
      }
    } else if n > 0 {
      assert CacheAfter(init).None?;
    }
    if run[n].parsed.Of(m).Some? {
      assert MostRecent(run, m, n);
    }
  }

  /** A tick of any other provider passes its values through and forgets everything cached. */
  lemma {:induction false} OtherProvidersForget(run: seq<Reading>, later: seq<Reading>)
    requires run != [] && run[|run| - 1].provider != Claude
    ensures Reported(run) == run[|run| - 1].parsed
    ensures CacheAfter(run + later) == CacheAfter(later)
  {
    if later == [] {
      assert run + later == run;
    } else {
      OtherProvidersForget(run, later[..|later| - 1]);
      assert (run + later)[..|run + later| - 1] == run + later[..|later| - 1];
    }
  }
}
