/** One-way safety overrides from the environment and the command line, their audit trail, and the
    effects the resulting configuration permits. */
module Safety {
  import opened Wrappers
  import opened Text

  datatype ActionsMode = ObserveOnly | RecommendOnly | SafeAuto {
    /** Lower is safer. */
    function Rank(): nat {
      match this
      case ObserveOnly => 0
      case RecommendOnly => 1
      case SafeAuto => 2
    }
  }

  datatype RefreshPolicy = ManualOnly | Automatic

  datatype Sensitivity = Minimal | Balanced | Forensic

  /** The part of the configuration the overrides and the effects look at; `others` is all the rest. */
  datatype Settings<+T> = Settings(
    mode: ActionsMode,
    allowNotifications: bool,
    allowArchive: bool,
    allowPromptSend: bool,
    allowDestructive: bool,
    refresh: RefreshPolicy,
    sensitivity: Sensitivity,
    others: T)

  datatype Outcome = Accepted | Rejected(reason: string) | UnknownKey

  datatype Override = Override(key: string, value: string)

  function Cleaned(v: string): string {
    Lower(Trim(v))
  }

  function ParseMode(v: string): Option<ActionsMode> {
    var w := Cleaned(v);
    if w in ["observe_only", "observe-only", "observe"] then Some(ObserveOnly)
    else if w in ["recommend_only", "recommend-only", "recommend"] then Some(RecommendOnly)
    else if w in ["safe_auto", "safe-auto"] then Some(SafeAuto)
    else None
  }

  function ParseBool(v: string): Option<bool> {
    var w := Cleaned(v);
    if w in ["1", "true", "yes", "on"] then Some(true)
    else if w in ["0", "false", "no", "off"] then Some(false)
    else None
  }

  function ParseSensitivity(v: string): Option<Sensitivity> {
    var w := Cleaned(v);
    if w == "minimal" then Some(Minimal)
    else if w == "balanced" then Some(Balanced)
    else if w == "forensic" then Some(Forensic)
    else None
  }

  // ----- What an override asks for -----

  function AsksMode(o: Override): Option<ActionsMode> {
    if o.key == "actions.mode" then ParseMode(o.value) else None
  }

  predicate AsksNoPromptSend(o: Override) {
    o.key == "actions.allow_auto_prompt_send" && ParseBool(o.value) == Some(false)
  }

  predicate AsksNoDestructive(o: Override) {
    o.key == "actions.allow_destructive_actions" && ParseBool(o.value) == Some(false)
  }

  predicate AsksManual(o: Override) {
    o.key == "refresh.policy" && Cleaned(o.value) in ["manual_only", "manual"]
  }

  function AsksSensitivity(o: Override): Option<Sensitivity> {
    if o.key == "logging.sensitivity" then ParseSensitivity(o.value) else None
  }

  predicate IsKnownKey(key: string) {
    key in ["actions.mode", "actions.allow_auto_prompt_send", "actions.allow_destructive_actions",
            "refresh.policy", "logging.sensitivity"]
  }

  /** An override is accepted when it asks for something, and not for a riskier mode. */
  predicate IsAccepted<T>(s: Settings<T>, o: Override) {
    || (AsksMode(o).Some? && AsksMode(o).value.Rank() <= s.mode.Rank())
    || AsksNoPromptSend(o) || AsksNoDestructive(o) || AsksManual(o) || AsksSensitivity(o).Some?
  }

  /** The settings after one override. */
  function Applied<T>(s: Settings<T>, o: Override): Settings<T> {
    s.(mode := if AsksMode(o).Some? && AsksMode(o).value.Rank() <= s.mode.Rank() then AsksMode(o).value else s.mode,
       allowPromptSend := s.allowPromptSend && !AsksNoPromptSend(o),
       allowDestructive := s.allowDestructive && !AsksNoDestructive(o),
       refresh := if AsksManual(o) then ManualOnly else s.refresh,
       sensitivity := if AsksSensitivity(o).Some? then AsksSensitivity(o).value else s.sensitivity)
  }

  class Config<T> {
    var settings: Settings<T>

    constructor (settings: Settings<T>)
      ensures this.settings == settings
    {
      this.settings := settings;
    }

    /** `apply_safety_override` */
    method ApplySafetyOverride(o: Override) returns (r: Outcome)
      modifies this
      ensures settings == Applied(old(settings), o)
      ensures r.Accepted? <==> IsAccepted(old(settings), o)
      ensures r.UnknownKey? <==>
                o.key !in ["actions.mode", "actions.allow_auto_prompt_send", "actions.allow_destructive_actions",
                           "refresh.policy", "logging.sensitivity"]
    {
      hide Cleaned;
      match o.key
      case "actions.mode" =>
        var mode := ParseMode(o.value);
        if mode.None? {
          return Rejected("unknown actions.mode");
        }
        if mode.value.Rank() <= settings.mode.Rank() {
          settings := settings.(mode := mode.value);
          return Accepted;
        }
        return Rejected("actions.mode can only move toward safer");
      case "actions.allow_auto_prompt_send" =>
        var requested := ParseBool(o.value);
        if requested == Some(false) {
          settings := settings.(allowPromptSend := false);
          return Accepted;
        }
        return Rejected(if requested.Some? then "cannot be raised to true" else "not a bool");
      case "actions.allow_destructive_actions" =>
        var requested := ParseBool(o.value);
        if requested == Some(false) {
          settings := settings.(allowDestructive := false);
          return Accepted;
        }
        return Rejected(if requested.Some? then "cannot be raised to true" else "not a bool");
      case "refresh.policy" =>
        if Cleaned(o.value) in ["manual_only", "manual"] {
          settings := settings.(refresh := ManualOnly);
          return Accepted;
        }
        return Rejected("refresh.policy can only move to manual_only");
      case "logging.sensitivity" =>
        var sensitivity := ParseSensitivity(o.value);
        if sensitivity.None? {
          return Rejected("unknown sensitivity");
        }
        settings := settings.(sensitivity := sensitivity.value);
        return Accepted;
      case _ =>
        return UnknownKey;
    }
  }

  // ----- A batch of overrides -----

  datatype Severity = Risk | Concern

  /** Every audit row has the kind SafetyOverrideRejected; its severity tells a rejection from an unknown key. */
  datatype AuditEvent = AuditEvent(severity: Severity, about: Override)

  class Sink {
    var events: seq<AuditEvent>

    constructor ()
      ensures events == []
    {
      events := [];
    }

    method Record(e: AuditEvent)
      modifies this
      ensures events == old(events) + [e]
    {
      events := events + [e];
    }
  }

  datatype Stats = Stats(accepted: nat, rejected: nat, unknown: nat)

  /** The settings after a sequence of overrides. */
  ghost function Run<T>(s: Settings<T>, os: seq<Override>): Settings<T> {
    if os == [] then s else Applied(Run(s, os[..|os| - 1]), os[|os| - 1])
  }

  /** The audit rows of a sequence of overrides: one for each that is not accepted, in order. */
  ghost function Trail<T>(s: Settings<T>, os: seq<Override>): seq<AuditEvent> {
    if os == [] then []
    else
      var before, o := os[..|os| - 1], os[|os| - 1];
      Trail(s, before) +
      if !IsKnownKey(o.key) then [AuditEvent(Concern, o)]
      else if IsAccepted(Run(s, before), o) then []
      else [AuditEvent(Risk, o)]
  }

  ghost function CountOf(events: seq<AuditEvent>, severity: Severity): nat {
    if events == [] then 0
    else CountOf(events[..|events| - 1], severity) + if events[|events| - 1].severity == severity then 1 else 0
  }

  lemma {:induction false} CountConcat(a: seq<AuditEvent>, b: seq<AuditEvent>, severity: Severity)
    ensures CountOf(a + b, severity) == CountOf(a, severity) + CountOf(b, severity)
  {
    if b == [] {
      assert a + b == a;
    } else {
      CountConcat(a, b[..|b| - 1], severity);
      assert (a + b)[..|a + b| - 1] == a + b[..|b| - 1];
    }
  }

  /** `apply_override_with_audit`: the counters add up to the length of the batch, and the sink receives one
      row for each override that is not accepted. */
  method ApplyOverrideWithAudit<T>(cfg: Config<T>, os: seq<Override>, sink: Sink) returns (stats: Stats)
    modifies cfg, sink
    ensures cfg.settings == Run(old(cfg.settings), os)
    ensures sink.events == old(sink.events) + Trail(old(cfg.settings), os)
    ensures stats.accepted + stats.rejected + stats.unknown == |os|
    ensures stats.rejected == CountOf(Trail(old(cfg.settings), os), Risk)
    ensures stats.unknown == CountOf(Trail(old(cfg.settings), os), Concern)
  {
    hide Applied, IsAccepted;
    stats := Stats(0, 0, 0);
    ghost var start := cfg.settings;
    for i := 0 to |os|
      invariant cfg.settings == Run(start, os[..i])
      invariant sink.events == old(sink.events) + Trail(start, os[..i])
      invariant stats.accepted + stats.rejected + stats.unknown == i
      invariant stats.rejected == CountOf(Trail(start, os[..i]), Risk)
      invariant stats.unknown == CountOf(Trail(start, os[..i]), Concern)
    {
      assert os[..i + 1][..i] == os[..i];
      ghost var trail := Trail(start, os[..i]);
      AcceptedIsKnown(cfg.settings, os[i]);
      var r := cfg.ApplySafetyOverride(os[i]);
      match r {
        case Accepted =>
          stats := stats.(accepted := stats.accepted + 1);
          assert trail + [] == trail;
        case Rejected(_) =>
          stats := stats.(rejected := stats.rejected + 1);
          sink.Record(AuditEvent(Risk, os[i]));
          assert (trail + [AuditEvent(Risk, os[i])])[..|trail|] == trail;
        case UnknownKey =>
          stats := stats.(unknown := stats.unknown + 1);
          sink.Record(AuditEvent(Concern, os[i]));
          assert (trail + [AuditEvent(Concern, os[i])])[..|trail|] == trail;
      }
    }
    assert os[..|os|] == os;
  }

  lemma AcceptedIsKnown<T>(s: Settings<T>, o: Override)
    ensures IsAccepted(s, o) ==> IsKnownKey(o.key)
  {
    hide Cleaned;
  }

  // ----- What a batch can do, in whatever order -----

  /** The mode after a batch is the safest among the initial mode and the modes asked for, and the flags are
      lowered exactly when some override asks for it. None of this depends on the order of the batch. */
  lemma {:induction false} RunIsSafest<T>(s: Settings<T>, os: seq<Override>)
    ensures var r := Run(s, os);
            && r.mode.Rank() <= s.mode.Rank()
            && (forall i :: 0 <= i < |os| && AsksMode(os[i]).Some? ==> r.mode.Rank() <= AsksMode(os[i]).value.Rank())
            && (r.mode == s.mode || exists i :: 0 <= i < |os| && AsksMode(os[i]) == Some(r.mode))
            && (r.allowPromptSend <==> s.allowPromptSend && forall i :: 0 <= i < |os| ==> !AsksNoPromptSend(os[i]))
            && (r.allowDestructive <==> s.allowDestructive && forall i :: 0 <= i < |os| ==> !AsksNoDestructive(os[i]))
            && (r.refresh == Automatic <==> s.refresh == Automatic && forall i :: 0 <= i < |os| ==> !AsksManual(os[i]))
            && r.allowNotifications == s.allowNotifications && r.allowArchive == s.allowArchive && r.others == s.others
  {
    hide AsksMode, AsksNoPromptSend, AsksNoDestructive, AsksManual, AsksSensitivity;
    if os != [] {
      var n := |os| - 1;
      RunIsSafest(s, os[..n]);
      var before, r := Run(s, os[..n]), Run(s, os);
      assert forall i :: 0 <= i < n ==> os[..n][i] == os[i];
      if r.mode != s.mode {
        if r.mode == before.mode {
          var i :| 0 <= i < n && AsksMode(os[..n][i]) == Some(r.mode);
          assert AsksMode(os[i]) == Some(r.mode);
        } else {
          assert AsksMode(os[n]) == Some(r.mode);
        }
      }
    }
  }

  /** Reordering a batch changes nothing but, possibly, the logging sensitivity. */
  lemma OrderIsIrrelevant<T>(s: Settings<T>, a: seq<Override>, b: seq<Override>)
    requires forall o :: o in a <==> o in b
    ensures Run(s, a).(sensitivity := s.sensitivity) == Run(s, b).(sensitivity := s.sensitivity)
  {
    hide AsksMode, AsksNoPromptSend, AsksNoDestructive, AsksManual, AsksSensitivity, Run;
    RunIsSafest(s, a);
    RunIsSafest(s, b);
    assert forall i :: 0 <= i < |a| ==> a[i] in b;
    assert forall i :: 0 <= i < |b| ==> b[i] in a;
    var ra, rb := Run(s, a), Run(s, b);
    assert ra.mode.Rank() <= rb.mode.Rank() && rb.mode.Rank() <= ra.mode.Rank();
  }

  // ----- Effects -----

  datatype Effect = Notify | ArchiveLocal | PromptSendProposed | SensitiveNotImplemented

  /** `EffectRunner::permit` */
  predicate Permit<T>(s: Settings<T>, e: Effect) {
    s.mode != ObserveOnly &&
    match e
    case Notify => s.allowNotifications
    case ArchiveLocal => s.allowArchive
    case PromptSendProposed => true
    case SensitiveNotImplemented => false
  }

  /** Every effect permitted after a batch was permitted before it; and a permission is lost exactly when
      the batch asks to only observe. */
  lemma {:induction false} PermissionsOnlyShrink<T>(s: Settings<T>, os: seq<Override>, e: Effect)
    ensures Permit(Run(s, os), e) <==>
              Permit(s, e) && forall i :: 0 <= i < |os| ==> AsksMode(os[i]) != Some(ObserveOnly)
  {
    hide AsksMode, Run;
    RunIsSafest(s, os);
  }

  // ----- The same, mode by mode and word by word -----

  /** After any batch the monitor may act on its own only if it could before and nobody asked for less; it only observes
      exactly when it did before or somebody asked for that; otherwise it recommends. */
  lemma ModeAfterBatch<T>(s: Settings<T>, os: seq<Override>)
    ensures var mode := Run(s, os).mode;
            && (mode == SafeAuto <==> s.mode == SafeAuto && forall i :: 0 <= i < |os| ==>
                  AsksMode(os[i]) != Some(RecommendOnly) && AsksMode(os[i]) != Some(ObserveOnly))
            && (mode == ObserveOnly <==>
                  s.mode == ObserveOnly || exists i :: 0 <= i < |os| && AsksMode(os[i]) == Some(ObserveOnly))
            && (s.mode == RecommendOnly ==> mode == RecommendOnly || mode == ObserveOnly)
            && (s.mode == ObserveOnly ==> mode == ObserveOnly)
  {
    hide AsksMode, Run;
    RunIsSafest(s, os);
  }

  /** The value spells one of the words, up to case and the white space around it. */
  predicate OneOf(v: string, words: seq<string>) {
    exists w :: w in words && Spells(Trim(v), w)
  }

  lemma CleanedIs(v: string, words: seq<string>)
    requires forall w :: w in words ==> NoCapitals(w)
    ensures Cleaned(v) in words <==> OneOf(v, words)
  {
    hide Trim, Spells, NoCapitals;
    forall w | w in words
      ensures Cleaned(v) == w <==> Spells(Trim(v), w)
    {
      SpellsIff(Trim(v), w);
    }
  }

  lemma ModeWords(v: string)
    ensures ParseMode(v) == Some(ObserveOnly) <==> OneOf(v, ["observe_only", "observe-only", "observe"])
    ensures ParseMode(v) == Some(RecommendOnly) <==> OneOf(v, ["recommend_only", "recommend-only", "recommend"])
    ensures ParseMode(v) == Some(SafeAuto) <==> OneOf(v, ["safe_auto", "safe-auto"])
  {
    hide Cleaned, OneOf;
    CleanedIs(v, ["observe_only", "observe-only", "observe"]);
    CleanedIs(v, ["recommend_only", "recommend-only", "recommend"]);
    CleanedIs(v, ["safe_auto", "safe-auto"]);
  }

  lemma FlagWords(v: string)
    ensures ParseBool(v) == Some(true) <==> OneOf(v, ["1", "true", "yes", "on"])
    ensures ParseBool(v) == Some(false) <==> OneOf(v, ["0", "false", "no", "off"])
  {
    hide Cleaned, OneOf;
    CleanedIs(v, ["1", "true", "yes", "on"]);
    CleanedIs(v, ["0", "false", "no", "off"]);
  }

  lemma SensitivityWords(v: string)
    ensures ParseSensitivity(v) == Some(Minimal) <==> OneOf(v, ["minimal"])
    ensures ParseSensitivity(v) == Some(Balanced) <==> OneOf(v, ["balanced"])
    ensures ParseSensitivity(v) == Some(Forensic) <==> OneOf(v, ["forensic"])
  {
    hide Cleaned, OneOf;
    CleanedIs(v, ["minimal"]);
    CleanedIs(v, ["balanced"]);
    CleanedIs(v, ["forensic"]);
  }

  /** When an override is accepted: a mode that is not riskier than the current one, a flag lowered, the manual
      policy, and any sensitivity; nothing else. */
  lemma AcceptedIff<T>(s: Settings<T>, o: Override)
    ensures IsAccepted(s, o) <==>
              match o.key
              case "actions.mode" =>
                || OneOf(o.value, ["observe_only", "observe-only", "observe"])
                || (s.mode != ObserveOnly && OneOf(o.value, ["recommend_only", "recommend-only", "recommend"]))
                || (s.mode == SafeAuto && OneOf(o.value, ["safe_auto", "safe-auto"]))
              case "actions.allow_auto_prompt_send" => OneOf(o.value, ["0", "false", "no", "off"])
              case "actions.allow_destructive_actions" => OneOf(o.value, ["0", "false", "no", "off"])
              case "refresh.policy" => OneOf(o.value, ["manual_only", "manual"])
              case "logging.sensitivity" => OneOf(o.value, ["minimal", "balanced", "forensic"])
              case _ => false
  {
    hide Cleaned, OneOf, ParseMode, ParseBool, ParseSensitivity;
    ModeWords(o.value);
    FlagWords(o.value);
    SensitivityWords(o.value);
    OneOfThree(o.value);
    var sensitivity, mode := ParseSensitivity(o.value), ParseMode(o.value);
    assert sensitivity.None? || sensitivity.value == Minimal || sensitivity.value == Balanced
           || sensitivity.value == Forensic;
    assert mode.None? || mode.value == ObserveOnly || mode.value == RecommendOnly || mode.value == SafeAuto;
    assert Cleaned(o.value) in ["manual_only", "manual"] <==> OneOf(o.value, ["manual_only", "manual"]) by {
      CleanedIs(o.value, ["manual_only", "manual"]);
    }
  }

  lemma OneOfThree(v: string)
    ensures OneOf(v, ["minimal", "balanced", "forensic"]) <==>
              OneOf(v, ["minimal"]) || OneOf(v, ["balanced"]) || OneOf(v, ["forensic"])
  {
    hide Trim, Spells;
    assert ["minimal"][0] == "minimal" && ["balanced"][0] == "balanced" && ["forensic"][0] == "forensic";
    assert ["minimal", "balanced", "forensic"] == ["minimal"] + ["balanced"] + ["forensic"];
  }

  /** What an accepted override sets. */
  lemma AcceptedSets<T>(s: Settings<T>, o: Override)
    requires IsAccepted(s, o)
    ensures var r := Applied(s, o);
            match o.key
            case "actions.mode" => Some(r.mode) == ParseMode(o.value) && r == s.(mode := r.mode)
            case "actions.allow_auto_prompt_send" => r == s.(allowPromptSend := false)
            case "actions.allow_destructive_actions" => r == s.(allowDestructive := false)
            case "refresh.policy" => r == s.(refresh := ManualOnly)
            case _ => Some(r.sensitivity) == ParseSensitivity(o.value) && r == s.(sensitivity := r.sensitivity)
  {
    hide Cleaned;
  }

  lemma RejectedKeeps<T>(s: Settings<T>, o: Override)
    requires !IsAccepted(s, o)
    ensures Applied(s, o) == s
  {
    hide Cleaned;
  }

  /** What the configuration permits, effect by effect. */
  lemma PermitIs<T>(s: Settings<T>)
    ensures s.mode == ObserveOnly ==> forall e :: !Permit(s, e)
    ensures s.mode != ObserveOnly ==>
              && (Permit(s, Notify) <==> s.allowNotifications) && (Permit(s, ArchiveLocal) <==> s.allowArchive)
              && Permit(s, PromptSendProposed) && !Permit(s, SensitiveNotImplemented)
  {
  }
}
