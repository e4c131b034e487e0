/** The structured backstop for Codex: an append-only session log, read line by line, and the choice of
    the log that belongs to a pane. */
module CodexRollout {
  import opened Wrappers
  import opened RecentFiles

  datatype Totals = Totals(input: Option<nat>, output: Option<nat>, cached: Option<nat>)

  /** An info record that is JSON null counts as present, with nothing in it. */
  datatype Info = Info(total: Option<Totals>, contextWindow: Option<nat>)

  datatype RateWindow = RateWindow(resetsAt: Option<nat>, minutes: Option<nat>)

  /** One line of a log after JSON parsing. `Ignored` is a blank or malformed line or any other kind. */
  datatype Line =
    | SessionMeta(originator: Option<string>, cwd: Option<string>)
    | TurnContext(model: Option<string>)
    | TokenCount(info: Option<Info>, primary: Option<RateWindow>, secondary: Option<RateWindow>)
    | Ignored

  datatype Signals = Signals(
    model: Option<string>,
    input: Option<nat>,
    output: Option<nat>,
    cached: Option<nat>,
    contextWindow: Option<nat>,
    reset5h: Option<nat>,
    resetWeekly: Option<nat>)

  // ----- What a body says -----

  predicate MetaMatches(l: Line, cwd: string) {
    l.SessionMeta? && l.originator == Some("codex-tui") && l.cwd == Some(cwd)
  }

  ghost predicate HasMeta(body: seq<Line>) {
    exists i :: 0 <= i < |body| && body[i].SessionMeta?
  }

  /** Reading the log is not abandoned: no session_meta line is another pane's. */
  ghost predicate MetasMatch(body: seq<Line>, cwd: string) {
    forall i :: 0 <= i < |body| && body[i].SessionMeta? ==> MetaMatches(body[i], cwd)
  }

  /** The log has a session_meta line, and every session_meta line is this pane's. */
  ghost predicate Accepted(body: seq<Line>, cwd: string) {
    HasMeta(body) && MetasMatch(body, cwd)
  }

  /** The value of the last line for which `f` has one. */
  ghost function Latest<T>(body: seq<Line>, f: Line -> Option<T>): Option<T> {
    if body == [] then None
    else if f(body[|body| - 1]).Some? then f(body[|body| - 1])
    else Latest(body[..|body| - 1], f)
  }

  function ModelOf(l: Line): Option<string> {
    if l.TurnContext? then l.model else None
  }

  function InfoOf(l: Line): Option<Info> {
    if l.TokenCount? then l.info else None
  }

  function TotalsOf(l: Line): Option<Totals> {
    if InfoOf(l).Some? then InfoOf(l).value.total else None
  }

  /** A complete window is the 5-hour one when it is at most 720 minutes long, else the weekly one. */
  function ResetOf(w: Option<RateWindow>, short: bool): Option<nat> {
    if w.Some? && w.value.minutes.Some? && (w.value.minutes.value <= 720) == short then w.value.resetsAt else None
  }

  /** Rate limits are read only off events that carry an info record; of two windows of the same length
      class, the secondary one counts. */
  function ResetIn(l: Line, short: bool): Option<nat> {
    if InfoOf(l).None? then None else OrElse(ResetOf(l.secondary, short), ResetOf(l.primary, short))
  }

  /** Every field is that of the latest line that speaks about it. A newer event with totals replaces all
      three token counts, present or not. */
  ghost function Fields(body: seq<Line>): Signals {
    var totals := Latest(body, TotalsOf);
    var info := Latest(body, InfoOf);
    Signals(
      Latest(body, ModelOf),
      if totals.Some? then totals.value.input else None,
      if totals.Some? then totals.value.output else None,
      if totals.Some? then totals.value.cached else None,
      if info.Some? then info.value.contextWindow else None,
      Latest(body, l => ResetIn(l, true)),
      Latest(body, l => ResetIn(l, false)))
  }

  ghost function Parsed(body: seq<Line>, cwd: string): Option<Signals> {
    if Accepted(body, cwd) then Some(Fields(body)) else None
  }

  method ApplyWindow(sig: Signals, w: Option<RateWindow>) returns (r: Signals)
    ensures r == sig.(
      reset5h := if ResetOf(w, true).Some? then ResetOf(w, true) else sig.reset5h,
      resetWeekly := if ResetOf(w, false).Some? then ResetOf(w, false) else sig.resetWeekly)
  {
    r := sig;
    if w.Some? && w.value.resetsAt.Some? && w.value.minutes.Some? {
      if w.value.minutes.value <= 720 {
        r := r.(reset5h := w.value.resetsAt);
      } else {
        r := r.(resetWeekly := w.value.resetsAt);
      }
    }
  }

  /** `parse_if_matching` */
  method ParseIfMatching(body: seq<Line>, cwd: string) returns (r: Option<Signals>)
    ensures r == Parsed(body, cwd)
  {
    var matched := false;
    var sig := Signals(None, None, None, None, None, None, None);
    for i := 0 to |body|
      invariant matched <==> exists j :: 0 <= j < i && body[j].SessionMeta?
      invariant forall j :: 0 <= j < i && body[j].SessionMeta? ==> MetaMatches(body[j], cwd)
      invariant sig == Fields(body[..i])
    {
      assert body[..i + 1][..i] == body[..i];
      match body[i] {
        case SessionMeta(originator, metaCwd) =>
          if originator != Some("codex-tui") || metaCwd != Some(cwd) {
            return None;
          }
          matched := true;
        case TurnContext(model) =>
          if model.Some? {
            sig := sig.(model := model);
          }
        case TokenCount(info, primary, secondary) =>
          if info.Some? {
            if info.value.total.Some? {
              var total := info.value.total.value;
              sig := sig.(input := total.input, output := total.output, cached := total.cached);
            }
            sig := sig.(contextWindow := info.value.contextWindow);
            sig := ApplyWindow(sig, primary);
            sig := ApplyWindow(sig, secondary);
          }
        case Ignored =>
      }
    }
    assert body[..|body|] == body;
    r := if matched then Some(sig) else None;
  }

  lemma {:induction false} LatestConcat<T>(a: seq<Line>, b: seq<Line>, f: Line -> Option<T>)
    ensures Latest(a + b, f) == if Latest(b, f).Some? then Latest(b, f) else Latest(a, f)
  {
    if b == [] {
      assert a + b == a;
    } else {
      LatestConcat(a, b[..|b| - 1], f);
      assert (a + b)[..|a + b| - 1] == a + b[..|b| - 1];
    }
  }

  /** Parsing a grown log continues from what the prefix gave, be it accepted, abandoned or still without a
      session_meta line: acceptance is decided by both parts, and the new lines override the old ones field by
      field (token counts as one group). */
  lemma GrownLogContinues(a: seq<Line>, b: seq<Line>, cwd: string)
    ensures Accepted(a + b, cwd) <==> MetasMatch(a, cwd) && MetasMatch(b, cwd) && (HasMeta(a) || HasMeta(b))
    ensures var old', new', both := Fields(a), Fields(b), Fields(a + b);
            && both.model == OrElse(new'.model, old'.model)
            && both.reset5h == OrElse(new'.reset5h, old'.reset5h)
            && both.resetWeekly == OrElse(new'.resetWeekly, old'.resetWeekly)
            && (if Latest(b, TotalsOf).Some?
                then both.input == new'.input && both.output == new'.output && both.cached == new'.cached
                else both.input == old'.input && both.output == old'.output && both.cached == old'.cached)
            && both.contextWindow == if Latest(b, InfoOf).Some? then new'.contextWindow else old'.contextWindow
  {
    LatestConcat(a, b, TotalsOf);
    LatestConcat(a, b, InfoOf);
    LatestConcat(a, b, ModelOf);
    LatestConcat(a, b, l => ResetIn(l, true));
    LatestConcat(a, b, l => ResetIn(l, false));
    assert forall i :: 0 <= i < |a| ==> (a + b)[i] == a[i];
    assert forall j :: 0 <= j < |b| ==> (a + b)[|a| + j] == b[j];
  }

  /** The rate limits of the latest event change the reset times exactly when the event has an info record. */
  lemma LimitsNeedInfo(body: seq<Line>, info: Option<Info>, primary: Option<RateWindow>, secondary: Option<RateWindow>)
    ensures var before, after := Fields(body), Fields(body + [TokenCount(info, primary, secondary)]);
            var short, long := OrElse(ResetOf(secondary, true), ResetOf(primary, true)),
                               OrElse(ResetOf(secondary, false), ResetOf(primary, false));
            && after.reset5h == (if info.None? then before.reset5h else OrElse(short, before.reset5h))
            && after.resetWeekly == (if info.None? then before.resetWeekly else OrElse(long, before.resetWeekly))
            && (info.None? ==> after == before)
  {
    assert (body + [TokenCount(info, primary, secondary)])[..|body|] == body;
  }

  /** A log of the pane whose only token_count event has a 5-hour window but no info record: the reset is lost. */
  lemma LimitsWithoutInfoAreLost()
    ensures var limits := RateWindow(Some(1700000000), Some(300));
            var body := [SessionMeta(Some("codex-tui"), Some("w")), TokenCount(None, Some(limits), None)];
            Parsed(body, "w").Some? && Parsed(body, "w").value.reset5h == None
  {
    var meta, limits := SessionMeta(Some("codex-tui"), Some("w")), RateWindow(Some(1700000000), Some(300));
    LimitsNeedInfo([meta], None, Some(limits), None);
    var body := [meta, TokenCount(None, Some(limits), None)];
    assert body == [meta] + [TokenCount(None, Some(limits), None)];
    assert body[0].SessionMeta?;
    assert [meta][..0] == [];
    assert Latest([meta], l => ResetIn(l, true)) == None;
  }

  // ----- What each line adds to an accepted log -----

  ghost predicate Complete(w: Option<RateWindow>) {
    w.Some? && w.value.resetsAt.Some? && w.value.minutes.Some?
  }

  /** A log that is one session_meta line gives empty signals, and only for a pane of the TUI in that directory. */
  lemma MetaStarts(originator: Option<string>, metaCwd: Option<string>, cwd: string)
    ensures Parsed([], cwd) == None
    ensures Parsed([SessionMeta(originator, metaCwd)], cwd)
         == if originator == Some("codex-tui") && metaCwd == Some(cwd) then
              Some(Signals(None, None, None, None, None, None, None))
            else None
  {
    var body := [SessionMeta(originator, metaCwd)];
    assert body[0].SessionMeta?;
    hide Latest;
    LatestOfOne(body[0], TotalsOf);
    LatestOfOne(body[0], InfoOf);
    LatestOfOne(body[0], ModelOf);
    LatestOfOne(body[0], l => ResetIn(l, true));
    LatestOfOne(body[0], l => ResetIn(l, false));
    assert body == [body[0]];
  }

  lemma LatestOfOne<T>(line: Line, f: Line -> Option<T>)
    ensures Latest([line], f) == f(line)
  {
    assert [line][..0] == [];
  }

  /** A line that is no session_meta keeps a log accepted; another session_meta line must match as well. */
  lemma LineKeepsAcceptance(body: seq<Line>, line: Line, cwd: string)
    requires Parsed(body, cwd).Some?
    ensures Parsed(body + [line], cwd).Some? <==>
              (line.SessionMeta? ==> line.originator == Some("codex-tui") && line.cwd == Some(cwd))
    ensures Parsed(body + [line], cwd).Some? && (line.SessionMeta? || line.Ignored?) ==>
              Parsed(body + [line], cwd) == Parsed(body, cwd)
  {
    GrownLogContinues(body, [line], cwd);
    assert (body + [line])[..|body|] == body;
    assert [line][0] == line;
  }

  lemma TurnAdds(body: seq<Line>, model: Option<string>, cwd: string)
    requires Parsed(body, cwd).Some?
    ensures var sig := Parsed(body, cwd).value;
            Parsed(body + [TurnContext(model)], cwd) == Some(if model.Some? then sig.(model := model) else sig)
  {
    LineKeepsAcceptance(body, TurnContext(model), cwd);
    assert (body + [TurnContext(model)])[..|body|] == body;
  }

  /** An event with an info record: its window replaces the old one, present or not; totals replace all three counts;
      a complete rate window sets the 5-hour reset when it is at most 720 minutes long and the weekly one when it is
      longer, the secondary window after the primary. An event without info adds nothing. */
  lemma EventAdds(body: seq<Line>, info: Option<Info>, p: Option<RateWindow>, s: Option<RateWindow>, cwd: string)
    requires Parsed(body, cwd).Some?
    ensures var sig, r := Parsed(body, cwd).value, Parsed(body + [TokenCount(info, p, s)], cwd);
            && r.Some?
            && (info.None? ==> r.value == sig)
            && r.value.model == sig.model
            && (info.Some? ==>
                  && r.value.contextWindow == info.value.contextWindow
                  && (info.value.total.None? ==>
                        r.value.input == sig.input && r.value.output == sig.output && r.value.cached == sig.cached)
                  && (info.value.total.Some? ==>
                        var total := info.value.total.value;
                        && r.value.input == total.input && r.value.output == total.output
                        && r.value.cached == total.cached)
                  && r.value.reset5h == (if Complete(s) && s.value.minutes.value <= 720 then s.value.resetsAt
                                         else if Complete(p) && p.value.minutes.value <= 720 then p.value.resetsAt
                                         else sig.reset5h)
                  && r.value.resetWeekly == (if Complete(s) && s.value.minutes.value > 720 then s.value.resetsAt
                                             else if Complete(p) && p.value.minutes.value > 720 then p.value.resetsAt
                                             else sig.resetWeekly))
  {
    var line := TokenCount(info, p, s);
    LineKeepsAcceptance(body, line, cwd);
    assert (body + [line])[..|body|] == body;
  }

  // ----- The choice of a log -----

  /** A rollout file; the content is missing when it cannot be read. */
  type Rollout = File<Option<seq<Line>>>

  const MAX_CANDIDATES: nat := 64

  ghost function ParsedFile(f: Rollout, cwd: string): Option<Signals> {
    if f.content.Some? then Parsed(f.content.value, cwd) else None
  }

  /** The candidates that are read: the newest 64. */
  function Capped(files: seq<Rollout>): seq<Rollout> {
    var sorted := SortNewestFirst(files);
    if |sorted| <= MAX_CANDIDATES then sorted else sorted[..MAX_CANDIDATES]
  }

  ghost predicate IsMatch(fs: seq<Rollout>, i: nat, cwd: string) {
    i < |fs| && ParsedFile(fs[i], cwd).Some?
  }

  /** Position `k` holds the newest match, and no other match is less than a minute older. */
  ghost predicate Sole(fs: seq<Rollout>, k: nat, cwd: string) {
    && IsMatch(fs, k, cwd)
    && (forall j: nat :: j < k ==> !IsMatch(fs, j, cwd))
    && forall j: nat :: j > k && IsMatch(fs, j, cwd) ==> fs[k].mtime - fs[j].mtime >= AMBIGUITY_WINDOW
  }

  /** The same rule on the bag of files that are read: every other match is at least a minute older. */
  ghost predicate Alone(bag: multiset<Rollout>, f: Rollout, cwd: string) {
    && f in bag && ParsedFile(f, cwd).Some?
    && forall g :: g in bag - multiset{f} && ParsedFile(g, cwd).Some? ==> f.mtime - g.mtime >= AMBIGUITY_WINDOW
  }

  lemma AloneIsFar(bag: multiset<Rollout>, f: Rollout, g: Rollout, cwd: string)
    requires Alone(bag, f, cwd) && g in bag && g != f && ParsedFile(g, cwd).Some?
    ensures f.mtime - g.mtime >= AMBIGUITY_WINDOW
  {
    assert g in bag - multiset{f};
  }

  lemma AloneIsUnique(bag: multiset<Rollout>, f: Rollout, g: Rollout, cwd: string)
    requires Alone(bag, f, cwd) && Alone(bag, g, cwd)
    ensures f == g
  {
    if f != g {
      AloneIsFar(bag, f, g, cwd);
      AloneIsFar(bag, g, f, cwd);
    }
  }

  ghost function AnswerOf(bag: multiset<Rollout>, cwd: string): Option<Signals> {
    if exists f :: Alone(bag, f, cwd) then
      var f :| Alone(bag, f, cwd);
      ParsedFile(f, cwd)
    else None
  }

  /** Two logs of the pane: the newer one answers when the other is at least 60 seconds older, and none otherwise. */
  lemma TwoLogsAnswer(a: Rollout, b: Rollout, cwd: string)
    requires a.mtime >= b.mtime && ParsedFile(a, cwd).Some? && ParsedFile(b, cwd).Some?
    ensures AnswerOf(multiset{a, b}, cwd)
         == if a.mtime - b.mtime >= 60_000_000_000 then ParsedFile(a, cwd) else None
  {
    hide ParsedFile;
    var bag := multiset{a, b};
    assert bag - multiset{a} == multiset{b} && bag - multiset{b} == multiset{a};
    if a.mtime - b.mtime >= 60_000_000_000 {
      assert Alone(bag, a, cwd);
      AnswerIs(bag, a, cwd);
    }
  }

  /** The files read are the newest 64, or all when there are fewer. */
  lemma CappedAreNewest(files: seq<Rollout>)
    ensures |Capped(files)| == if |files| < 64 then |files| else 64
    ensures multiset(Capped(files)) <= multiset(files)
    ensures forall f, g :: f in Capped(files) && g in multiset(files) - multiset(Capped(files)) ==> f.mtime >= g.mtime
  {
    hide SortNewestFirst;
    var sorted, read := SortNewestFirst(files), Capped(files);
    var rest := sorted[|read|..];
    assert sorted == read + rest;
    assert |sorted| == |multiset(sorted)| == |multiset(files)| == |files|;
    assert multiset(files) - multiset(read) == multiset(rest);
    forall f, g | f in read && g in multiset(rest)
      ensures f.mtime >= g.mtime
    {
      var i :| 0 <= i < |read| && read[i] == f;
      assert g in rest;
      var j :| 0 <= j < |rest| && rest[j] == g;
      assert sorted[i] == f && sorted[|read| + j] == g;
    }
  }

  lemma AnswerIs(bag: multiset<Rollout>, f: Rollout, cwd: string)
    requires Alone(bag, f, cwd)
    ensures AnswerOf(bag, cwd) == ParsedFile(f, cwd)
  {
    var g :| Alone(bag, g, cwd) && AnswerOf(bag, cwd) == ParsedFile(g, cwd);
    AloneIsUnique(bag, f, g, cwd);
  }

  /** The position rule and the bag rule say the same. */
  lemma SoleIsAlone(fs: seq<Rollout>, k: nat, cwd: string)
    requires NewestFirst(fs) && k < |fs|
    ensures Sole(fs, k, cwd) <==> Alone(multiset(fs), fs[k], cwd)
  {
    var bag := multiset(fs);
    if Sole(fs, k, cwd) {
      forall g | g in bag - multiset{fs[k]} && ParsedFile(g, cwd).Some?
        ensures fs[k].mtime - g.mtime >= AMBIGUITY_WINDOW
      {
        OthersAt(fs, k, g);
        var j :| 0 <= j < |fs| && j != k && fs[j] == g;
        assert IsMatch(fs, j, cwd);
      }
    }
    if Alone(bag, fs[k], cwd) {
      forall j: nat | j != k && IsMatch(fs, j, cwd)
        ensures fs[k].mtime - fs[j].mtime >= AMBIGUITY_WINDOW
      {
        OthersAt(fs, k, fs[j]);
      }
    }
  }

  lemma AnswerIsSole(fs: seq<Rollout>, cwd: string)
    requires NewestFirst(fs)
    ensures AnswerOf(multiset(fs), cwd).Some? <==> exists k: nat :: Sole(fs, k, cwd)
    ensures forall k: nat :: Sole(fs, k, cwd) ==> AnswerOf(multiset(fs), cwd) == ParsedFile(fs[k], cwd)
  {
    hide Alone, ParsedFile, NewestFirst;
    var bag := multiset(fs);
    forall k: nat | Sole(fs, k, cwd)
      ensures AnswerOf(bag, cwd) == ParsedFile(fs[k], cwd)
    {
      SoleIsAlone(fs, k, cwd);
      AnswerIs(bag, fs[k], cwd);
    }
    if f :| Alone(bag, f, cwd) {
      AnswerIs(bag, f, cwd);
      AloneIsMatch(bag, f, cwd);
      var k :| 0 <= k < |fs| && fs[k] == f;
      SoleIsAlone(fs, k, cwd);
    }
  }

  lemma AloneIsMatch(bag: multiset<Rollout>, f: Rollout, cwd: string)
    requires Alone(bag, f, cwd)
    ensures f in bag && ParsedFile(f, cwd).Some?
  {
  }

  lemma ParsedFileIs(f: Rollout, cwd: string)
    ensures ParsedFile(f, cwd) == if f.content.Some? then Parsed(f.content.value, cwd) else None
  {
  }

  /** The second match decides for all the later ones. */
  lemma OlderMatches(fs: seq<Rollout>, first: nat, second: nat, cwd: string)
    requires NewestFirst(fs) && first < |fs|
    ensures first < second < |fs| && fs[first].mtime - fs[second].mtime >= AMBIGUITY_WINDOW ==>
              forall j :: second <= j < |fs| ==> fs[first].mtime - fs[j].mtime >= AMBIGUITY_WINDOW
  {
  }

  /** The two-match scan over the files that are read. */
  method ScanMatches(candidates: seq<Rollout>, currentPath: string) returns (r: Option<Signals>)
    requires NewestFirst(candidates)
    ensures r.Some? <==> exists k: nat :: Sole(candidates, k, currentPath)
    ensures forall k: nat :: r.Some? && Sole(candidates, k, currentPath) ==> r == ParsedFile(candidates[k], currentPath)
  {
    hide ParsedFile, NewestFirst;
    var matches: seq<(int, Signals)> := [];
    ghost var first, second := 0, 0;
    var i := 0;
    while i < |candidates| && |matches| < 2
      invariant i <= |candidates| && |matches| <= 2
      invariant matches == [] ==> forall j: nat :: j < i ==> !IsMatch(candidates, j, currentPath)
      invariant matches != [] ==>
        && first < i && matches[0].0 == candidates[first].mtime
        && ParsedFile(candidates[first], currentPath) == Some(matches[0].1)
        && forall j: nat :: j < first ==> !IsMatch(candidates, j, currentPath)
      invariant |matches| == 1 ==> forall j: nat :: first < j < i ==> !IsMatch(candidates, j, currentPath)
      invariant |matches| == 2 ==>
        && first < second < i && matches[1].0 == candidates[second].mtime
        && IsMatch(candidates, second, currentPath)
        && forall j: nat :: first < j < second ==> !IsMatch(candidates, j, currentPath)
    {
      var f := candidates[i];
      ParsedFileIs(f, currentPath);
      if f.content.Some? {
        var sig := ParseIfMatching(f.content.value, currentPath);
        if sig.Some? {
          if matches == [] {
            first := i;
          } else {
            second := i;
          }
          matches := matches + [(f.mtime, sig.value)];
        }
      }
      i := i + 1;
    }
    if matches == [] {
      return None;
    }
    OlderMatches(candidates, first, second, currentPath);
    if |matches| == 2 && matches[0].0 - matches[1].0 < AMBIGUITY_WINDOW {
      assert IsMatch(candidates, first, currentPath);
      assert forall k: nat :: Sole(candidates, k, currentPath) ==> k == first;
      return None;
    }
    assert Sole(candidates, first, currentPath);
    r := Some(matches[0].1);
  }

  /** `read_rollout_for_path`: the two-match scan answers exactly when the newest match among the newest 64
      files has no other match among them less than 60 seconds older; the answer depends on the bag of these
      files only. */
  method ReadRolloutForPath(files: seq<Rollout>, currentPath: string) returns (r: Option<Signals>)
    ensures r.Some? <==> currentPath != "" && exists k: nat :: Sole(Capped(files), k, currentPath)
    ensures forall k: nat :: r.Some? && Sole(Capped(files), k, currentPath) ==>
              r == ParsedFile(Capped(files)[k], currentPath)
    ensures currentPath != "" ==> r == AnswerOf(multiset(Capped(files)), currentPath)
  {
    hide SortNewestFirst, ParsedFile, AnswerOf, Alone;
    if currentPath == "" {
      return None;
    }
    var candidates := Capped(files);
    r := ScanMatches(candidates, currentPath);
    AnswerIsSole(candidates, currentPath);
  }
}
