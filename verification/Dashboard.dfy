/** The dashboard's bookkeeping of alerts: which are fresh, since when each is shown, and which
    are about to be hidden. */
module Dashboard {
  import opened Wrappers

  type Key = string

  /** `ALERT_AUTO_HIDE_DELAY`: 20 seconds. */
  const HIDE_DELAY: nat := 20_000_000_000

  datatype Alerts = Alerts(
    previous: set<Key>,
    justIn: set<Key>,
    times: map<Key, string>,
    deadlines: map<Key, Instant>)

  const NO_ALERTS := Alerts({}, {}, map[], map[])

  /** A refresh with the current fingerprints and the clock, or an operator toggling the hide of the alerts of
      a severity or of the selected alert. */
  datatype Event =
    | Refresh(current: set<Key>, timestamp: string)
    | Toggle(keys: seq<Key>, now: Instant)
    | ToggleOne(key: Key, now: Instant)

  ghost predicate AllPending(deadlines: map<Key, Instant>, keys: seq<Key>, now: Instant) {
    forall k :: k in keys ==> k in deadlines && deadlines[k] > now
  }

  ghost function Refreshed(s: Alerts, current: set<Key>, timestamp: string): Alerts {
    var justIn := current - s.previous;
    Alerts(
      current,
      justIn,
      map k | k in s.times.Keys + justIn && (k in justIn || k !in s.previous - current) ::
        if k in justIn then timestamp else s.times[k],
      map k | k in s.deadlines && k in current :: s.deadlines[k])
  }

  ghost function Toggled(s: Alerts, keys: seq<Key>, now: Instant): Alerts {
    s.(deadlines :=
      if AllPending(s.deadlines, keys, now) then map k | k in s.deadlines && k !in keys :: s.deadlines[k]
      else
        map k | k in s.deadlines.Keys + (set x | x in keys) ::
          if k in keys then now + HIDE_DELAY else s.deadlines[k])
  }

  ghost function ToggledOne(s: Alerts, key: Key, now: Instant): Alerts {
    s.(deadlines := if key in s.deadlines then s.deadlines - {key} else s.deadlines[key := now + HIDE_DELAY])
  }

  ghost function Step(s: Alerts, e: Event): Alerts {
    match e
    case Refresh(current, timestamp) => Refreshed(s, current, timestamp)
    case Toggle(keys, now) => Toggled(s, keys, now)
    case ToggleOne(key, now) => ToggledOne(s, key, now)
  }

  ghost function Run(es: seq<Event>): Alerts {
    if es == [] then NO_ALERTS else Step(Run(es[..|es| - 1]), es[|es| - 1])
  }

  /** Gives every fresh alert the time of the refresh. */
  method StampAll(times: map<Key, string>, keys: set<Key>, timestamp: string) returns (r: map<Key, string>)
    ensures r == map k | k in times.Keys + keys :: if k in keys then timestamp else times[k]
  {
    r := times;
    var rest := keys;
    while rest != {}
      invariant rest <= keys
      invariant r == map k | k in times.Keys + (keys - rest) :: if k in keys - rest then timestamp else times[k]
    {
      var key :| key in rest;
      r := r[key := timestamp];
      rest := rest - {key};
    }
  }

  /** Cancels the pending hides of the keys. */
  method Unhide(deadlines: map<Key, Instant>, keys: seq<Key>) returns (r: map<Key, Instant>)
    ensures r == map k | k in deadlines && k !in keys :: deadlines[k]
  {
    r := deadlines;
    for i := 0 to |keys|
      invariant r == map k | k in deadlines && k !in keys[..i] :: deadlines[k]
    {
      r := r - {keys[i]};
      assert keys[..i + 1] == keys[..i] + [keys[i]];
    }
    assert keys[..|keys|] == keys;
  }

  /** Gives every key the same new deadline. */
  method HideAll(deadlines: map<Key, Instant>, keys: seq<Key>, now: Instant) returns (r: map<Key, Instant>)
    ensures r.Keys == deadlines.Keys + set k | k in keys
    ensures forall k :: k in r ==> r[k] == if k in keys then now + HIDE_DELAY else deadlines[k]
  {
    r := deadlines;
    for i := 0 to |keys|
      invariant r.Keys == deadlines.Keys + set k | k in keys[..i]
      invariant forall k :: k in r ==> r[k] == if k in keys[..i] then now + HIDE_DELAY else deadlines[k]
    {
      assert keys[..i + 1] == keys[..i] + [keys[i]];
      r := r[keys[i] := now + HIDE_DELAY];
    }
    assert keys[..|keys|] == keys;
  }

  class AlertState {
    var previousAlerts: set<Key>
    var freshAlerts: set<Key>
    var alertTimes: map<Key, string>
    var alertHideDeadlines: map<Key, Instant>

    ghost function State(): Alerts
      reads this
    {
      Alerts(previousAlerts, freshAlerts, alertTimes, alertHideDeadlines)
    }

    constructor ()
      ensures State() == NO_ALERTS
    {
      previousAlerts, freshAlerts, alertTimes, alertHideDeadlines := {}, {}, map[], map[];
    }

    /** `refresh_alert_state`; the fingerprints of the current alerts and the clock are inputs. */
    method RefreshAlertState(current: set<Key>, timestamp: string)
      modifies this
      ensures State() == Refreshed(old(State()), current, timestamp)
    {
      var disappeared := previousAlerts - current;
      alertTimes := alertTimes - disappeared;
      alertHideDeadlines := map k | k in alertHideDeadlines && k in current :: alertHideDeadlines[k];
      freshAlerts := current - previousAlerts;
      alertTimes := StampAll(alertTimes, freshAlerts, timestamp);
      previousAlerts := current;
      assert alertTimes == Refreshed(old(State()), current, timestamp).times;
    }

    /** `toggle_selected_alert_hide`, for the key of the selected alert. */
    method ToggleSelectedAlertHide(key: Key, now: Instant)
      modifies this
      ensures State() == ToggledOne(old(State()), key, now)
    {
      if key in alertHideDeadlines {
        alertHideDeadlines := alertHideDeadlines - {key};
      } else {
        alertHideDeadlines := alertHideDeadlines[key := now + HIDE_DELAY];
      }
    }

    /** `toggle_alert_severity_hide`, for the keys of the severity. */
    method ToggleAlertSeverityHide(keys: seq<Key>, now: Instant)
      modifies this
      ensures State() == Toggled(old(State()), keys, now)
    {
      if keys == [] {
        assert alertHideDeadlines == Toggled(State(), keys, now).deadlines;
        return;
      }
      if forall k :: k in keys ==> k in alertHideDeadlines && alertHideDeadlines[k] > now {
        alertHideDeadlines := Unhide(alertHideDeadlines, keys);
      } else {
        alertHideDeadlines := HideAll(alertHideDeadlines, keys, now);
      }
      assert alertHideDeadlines == Toggled(old(State()), keys, now).deadlines;
    }
  }

  // ----- Any sequence of refreshes and toggles -----

  predicate Touches(e: Event, k: Key) {
    match e
    case Refresh(_, _) => false
    case Toggle(keys, _) => k in keys
    case ToggleOne(key, _) => k == key
  }

  /** Alert `k` is one that event `e` hides: a severity is hidden unless all of its alerts were already pending,
      and the selected alert unless it had a deadline. */
  ghost predicate Hides(s: Alerts, e: Event, k: Key) {
    && Touches(e, k)
    && if e.Toggle? then !AllPending(s.deadlines, e.keys, e.now) else k !in s.deadlines
  }

  /** Event `e` leaves alert `k` as it was. */
  predicate Spares(e: Event, k: Key) {
    !Touches(e, k) && (e.Refresh? ==> k in e.current)
  }

  datatype Snapshot = Snapshot(current: set<Key>, timestamp: string)

  /** The refreshes of a run. */
  ghost function Refreshes(es: seq<Event>): seq<Snapshot> {
    if es == [] then []
    else
      var last := es[|es| - 1];
      Refreshes(es[..|es| - 1]) + if last.Refresh? then [Snapshot(last.current, last.timestamp)] else []
  }

  ghost function CurrentAt(rs: seq<Snapshot>, i: int): set<Key>
    requires i < |rs|
  {
    if i < 0 then {} else rs[i].current
  }

  /** Refresh `at` began the presence of `k` that lasts to the end of the run. */
  ghost predicate PresentSince(rs: seq<Snapshot>, k: Key, at: nat) {
    && at < |rs|
    && (forall j :: at <= j < |rs| ==> k in rs[j].current)
    && k !in CurrentAt(rs, at - 1)
  }

  /** Exactly the alerts of the last refresh have a time, and it is that of the refresh that began the alert's
      current uninterrupted presence; the fresh alerts are those the last refresh brought in. */
  ghost predicate Dated(rs: seq<Snapshot>, s: Alerts) {
    && s.previous == s.times.Keys == CurrentAt(rs, |rs| - 1)
    && (rs != [] ==> s.justIn == CurrentAt(rs, |rs| - 1) - CurrentAt(rs, |rs| - 2))
    && forall k :: k in s.times ==> exists at: nat :: PresentSince(rs, k, at) && s.times[k] == rs[at].timestamp
  }

  lemma RefreshedTimes(s: Alerts, current: set<Key>, timestamp: string)
    requires s.times.Keys == s.previous
    ensures var t := Refreshed(s, current, timestamp);
            && t.previous == t.times.Keys == current && t.justIn == current - s.previous
            && forall k :: k in current ==> t.times[k] == if k in s.previous then s.times[k] else timestamp
  {
    assert Refreshed(s, current, timestamp).times.Keys == current;
  }

  lemma RefreshKeepsDated(rs: seq<Snapshot>, s: Alerts, r: Snapshot)
    requires Dated(rs, s)
    ensures Dated(rs + [r], Refreshed(s, r.current, r.timestamp))
  {
    hide Refreshed;
    RefreshedTimes(s, r.current, r.timestamp);
    var longer, t := rs + [r], Refreshed(s, r.current, r.timestamp);
    assert CurrentAt(longer, |rs| - 1) == CurrentAt(rs, |rs| - 1);
    forall k | k in t.times
      ensures exists at: nat :: PresentSince(longer, k, at) && t.times[k] == longer[at].timestamp
    {
      if k in s.previous {
        var at: nat :| PresentSince(rs, k, at) && s.times[k] == rs[at].timestamp;
        assert CurrentAt(longer, at - 1) == CurrentAt(rs, at - 1);
        assert PresentSince(longer, k, at);
      } else {
        assert PresentSince(longer, k, |rs|);
      }
    }
  }

  /** Over any run from the empty state, whatever is toggled in between. */
  lemma {:induction false} TimesStartPresence(es: seq<Event>)
    ensures Dated(Refreshes(es), Run(es))
  {
    hide Refreshed, PresentSince;
    if es != [] {
      var init, last := es[..|es| - 1], es[|es| - 1];
      TimesStartPresence(init);
      if last.Refresh? {
        RefreshKeepsDated(Refreshes(init), Run(init), Snapshot(last.current, last.timestamp));
      } else {
        assert Refreshes(init) + [] == Refreshes(init);
      }
    }
  }

  /** Event `i` hid alert `k`, no later toggle touched it, and every later refresh still had it. */
  ghost predicate HiddenBy(es: seq<Event>, k: Key, i: nat) {
    i < |es| && Hides(Run(es[..i]), es[i], k) && forall j :: i < j < |es| ==> Spares(es[j], k)
  }

  lemma HiddenStep(es: seq<Event>, k: Key, i: nat)
    requires i < |es| - 1
    ensures HiddenBy(es, k, i) <==> HiddenBy(es[..|es| - 1], k, i) && Spares(es[|es| - 1], k)
  {
    hide Run, Hides, Spares;
    assert es[..|es| - 1][..i] == es[..i];
  }

  lemma NobodyHides(k: Key)
    ensures forall es, i: nat :: i >= |es| ==> !HiddenBy(es, k, i)
  {
  }

  lemma HiddenLast(es: seq<Event>, k: Key)
    requires es != []
    ensures HiddenBy(es, k, |es| - 1) <==> Hides(Run(es[..|es| - 1]), es[|es| - 1], k)
  {
    hide Run, Hides;
  }

  lemma StepDeadline(s: Alerts, e: Event, k: Key)
    ensures Hides(s, e, k) ==> !Spares(e, k) && !e.Refresh?
    ensures var d := Step(s, e).deadlines;
            && (k in d <==> Hides(s, e, k) || (k in s.deadlines && Spares(e, k)))
            && (k in d ==> d[k] == if Hides(s, e, k) then e.now + HIDE_DELAY else s.deadlines[k])
  {
    hide AllPending;
  }

  /** Over any run, an alert has a hide deadline exactly when the last toggle that touched it hid it and the alert
      has been present at every refresh since; the deadline counts from that toggle. */
  lemma {:induction false} DeadlineIsOfLastHide(es: seq<Event>, k: Key)
    ensures k in Run(es).deadlines <==> exists i: nat :: HiddenBy(es, k, i)
    ensures forall i: nat :: HiddenBy(es, k, i) ==>
              !es[i].Refresh? && Run(es).deadlines[k] == es[i].now + 20_000_000_000
  {
    hide HiddenBy, Hides, Spares;
    NobodyHides(k);
    if es != [] {
      var n := |es| - 1;
      var init, last := es[..n], es[n];
      DeadlineIsOfLastHide(init, k);
      HiddenLast(es, k);
      forall i: nat | i < n
        ensures HiddenBy(es, k, i) <==> HiddenBy(init, k, i) && Spares(last, k)
      {
        HiddenStep(es, k, i);
        assert init[i] == es[i];
      }
      StepDeadline(Run(init), last, k);
      if k in Run(es).deadlines && !HiddenBy(es, k, n) {
        var i: nat :| HiddenBy(init, k, i);
        assert HiddenBy(es, k, i);
      }
    }
  }

  /** A refresh leaves a hide deadline only to alerts that are present, whatever was toggled before. */
  lemma DeadlinesBelongToPresentAlerts(es: seq<Event>, current: set<Key>, timestamp: string)
    ensures var s := Run(es + [Refresh(current, timestamp)]);
            s.deadlines.Keys <= s.previous == current
  {
    assert (es + [Refresh(current, timestamp)])[..|es|] == es;
  }

  /** Toggling a severity twice within the delay undoes a hide: from any state in which not all of its alerts
      were pending, none of them is pending afterwards, and the others keep their deadlines. */
  lemma ToggleTwiceUnhides(s: Alerts, keys: seq<Key>, now: Instant, later: Instant)
    requires !AllPending(s.deadlines, keys, now) && later < now + 20_000_000_000
    ensures var t := Toggled(Toggled(s, keys, now), keys, later);
            && (forall k :: k in keys ==> k !in t.deadlines)
            && forall k :: k !in keys ==>
                  (k in t.deadlines <==> k in s.deadlines) && (k in s.deadlines ==> t.deadlines[k] == s.deadlines[k])
  {
    var once := Toggled(s, keys, now);
    assert AllPending(once.deadlines, keys, later);
  }

  /** A deadline counts as pending until it is reached: the toggle cancels the hides only when every alert of the
      severity is pending, and otherwise hides all of them anew. */
  lemma ToggleIs(s: Alerts, keys: seq<Key>, now: Instant, k: Key)
    ensures var t := Step(s, Toggle(keys, now));
            && (k !in keys ==> (k in t.deadlines <==> k in s.deadlines)
                               && (k in s.deadlines ==> t.deadlines[k] == s.deadlines[k]))
            && (k in keys && (forall x :: x in keys ==> x in s.deadlines && s.deadlines[x] > now) ==> k !in t.deadlines)
            && (k in keys && (exists x :: x in keys && (x in s.deadlines ==> s.deadlines[x] <= now)) ==>
                  k in t.deadlines && t.deadlines[k] == now + 20_000_000_000)
  {
  }
}
