/** The bottom status line of the Codex CLI. */
module CodexStatus {
  import opened Wrappers
  import opened Text

  const U64_MAX: nat := 0xFFFF_FFFF_FFFF_FFFF

  /** What `parse_count_with_suffix` can accept between white space: a floating-point literal (which includes
      `inf` and `nan` in any case) with an optional K or M. The parser itself is a parameter of this module. */
  predicate IsNumeric(c: char) {
    var l := LowerAscii(c);
    IsDigit(c) || c == '+' || c == '-' || c == '.'
    || l == 'e' || l == 'i' || l == 'n' || l == 'f' || l == 't' || l == 'y' || l == 'a' || l == 'k' || l == 'm'
  }

  lemma NumericCharacters(c: char)
    ensures IsNumeric(c) <==>
              || 48 <= c as int <= 57
              || c as int in {43, 45, 46, 65, 69, 70, 73, 75, 77, 78, 84, 89,
                              97, 101, 102, 105, 107, 109, 110, 116, 121}
  {
  }

  ghost predicate Numeric(count: string -> Option<nat>) {
    forall s :: count(s).Some? ==> Trim(s) != "" && forall c :: c in Trim(s) ==> IsNumeric(c)
  }

  // ----- The token tests -----

  function StripPrefix(s: string, prefix: string): Option<string> {
    if prefix <= s then Some(s[|prefix|..]) else None
  }

  function StripSuffix(s: string, suffix: string): Option<string> {
    if EndsWith(s, suffix) then Some(s[..|s| - |suffix|]) else None
  }

  function PathOf(t: string): Option<string> {
    if t != "" && (t[0] == '~' || t[0] == '/') then Some(t) else None
  }

  predicate IsProviderModel(w: string) {
    StartsWith(w, "gpt-") || StartsWith(w, "claude-") || StartsWith(w, "gemini-")
  }

  predicate IsAlphabetic(c: char) {
    'a' <= c <= 'z' || 'A' <= c <= 'Z'
  }

  predicate IsEffort(w: string) {
    w in ["xhigh", "high", "medium", "low", "auto"]
  }

  function TrimNonAlphabetic(w: string): string
    decreases |w|
  {
    if w == "" then w
    else if !IsAlphabetic(w[0]) then TrimNonAlphabetic(w[1..])
    else if !IsAlphabetic(w[|w| - 1]) then TrimNonAlphabetic(w[..|w| - 1])
    else w
  }

  /** `parse_reasoning_effort_token` */
  function EffortWord(w: string): Option<string> {
    var cleaned := Lower(TrimNonAlphabetic(w));
    if IsEffort(cleaned) then Some(cleaned) else None
  }

  function FirstEffort(ws: seq<string>): Option<string> {
    if ws == [] then None
    else if EffortWord(ws[0]).Some? then EffortWord(ws[0])
    else FirstEffort(ws[1..])
  }

  /** The model of a model token: its first word, when that has a provider prefix. */
  function ModelOf(t: string): Option<string> {
    var ws := Words(t);
    if ws != [] && IsProviderModel(ws[0]) then Some(ws[0]) else None
  }

  /** The effort of a model token. */
  function EffortOf(t: string): Option<string> {
    if ModelOf(t).Some? then FirstEffort(Words(t)[1..]) else None
  }

  function ContextOf(t: string): Option<nat> {
    var rest := StripPrefix(t, "Context ");
    if rest.None? then None
    else
      var pct := StripSuffix(rest.value, "% used");
      if pct.None? then None else ParseU8(pct.value)
  }

  /** `parse_named_percent_token` */
  function PercentOf(t: string, name: string): Option<nat> {
    var rest := StripPrefix(t, name);
    if rest.None? then None
    else
      var r := TrimStart(rest.value);
      var end := Find(r, '%');
      if end.None? then None
      else
        var pct := ParseU8(Trim(r[..end.value]));
        if pct.Some? && pct.value <= 100 then pct else None
  }

  function CountOf(t: string, suffix: string, count: string -> Option<nat>): Option<nat> {
    var num := StripSuffix(t, suffix);
    if num.None? then None else count(Trim(num.value))
  }

  /** `is_plain_identifier` */
  predicate IsPlain(t: string) {
    && t != ""
    && |t| <= 60
    && forall i :: 0 <= i < |t| ==> IsAlphabetic(t[i]) || IsDigit(t[i]) || t[i] in "/_.-"
  }

  // ----- What a status line says -----

  ghost function First<T>(ts: seq<string>, f: string -> Option<T>): Option<T> {
    if ts == [] then None
    else
      var before := First(ts[..|ts| - 1], f);
      if before.Some? then before else f(ts[|ts| - 1])
  }

  ghost function Last<T>(ts: seq<string>, f: string -> Option<T>): Option<T> {
    if ts == [] then None
    else if f(ts[|ts| - 1]).Some? then f(ts[|ts| - 1])
    else Last(ts[..|ts| - 1], f)
  }

  /** The plain tokens after the model token, other than the path token. */
  ghost function PlainAfterModel(ts: seq<string>): seq<string> {
    if ts == [] then []
    else
      var init, last := ts[..|ts| - 1], ts[|ts| - 1];
      PlainAfterModel(init) +
      if First(init, ModelOf).Some? && IsPlain(last) && (First(init, PathOf).Some? || PathOf(last).None?)
      then [last] else []
  }

  datatype Fields = Fields(
    context: Option<nat>,
    quota5h: Option<nat>,
    quotaWeekly: Option<nat>,
    total: Option<nat>,
    input: Option<nat>,
    output: Option<nat>,
    model: Option<string>,
    effort: Option<string>,
    path: Option<string>,
    branch: Option<string>,
    window: Option<nat>)

  /** Every field is the first token of its form, except that the context is the last, and the branch is the
      second plain token after the model: the first one is the project name. */
  ghost function FieldsOf(ts: seq<string>, count: string -> Option<nat>): Fields {
    Fields(
      Last(ts, ContextOf),
      First(ts, t => PercentOf(t, "5h")),
      First(ts, t => PercentOf(t, "weekly")),
      First(ts, t => CountOf(t, " used", count)),
      First(ts, t => CountOf(t, " in", count)),
      First(ts, t => CountOf(t, " out", count)),
      First(ts, ModelOf),
      First(ts, EffortOf),
      First(ts, PathOf),
      if |PlainAfterModel(ts)| >= 2 then Some(PlainAfterModel(ts)[1]) else None,
      First(ts, t => CountOf(t, " window", count)))
  }

  // ----- The forms of tokens exclude each other -----

  ghost predicate Trimmed(t: string) {
    t != "" ==> !IsSpace(t[0]) && !IsSpace(t[|t| - 1])
  }

  /** A count token starts with a numeric character, has no percent sign and no identifier shape. */
  lemma CountIsNumeric(t: string, suffix: string, count: string -> Option<nat>)
    requires Numeric(count) && Trimmed(t) && suffix != "" && IsSpace(suffix[0]) && '%' !in suffix
    requires CountOf(t, suffix, count).Some?
    ensures t != "" && IsNumeric(t[0]) && '%' !in t && !IsPlain(t)
  {
    hide IsNumeric, Trim, IsSpace;
    var k := |t| - |suffix|;
    var num := t[..k];
    assert t == num + suffix;
    assert t[k] == suffix[0];
    assert !IsPlain(t) by {
      SpaceIsNotPlain(t, k);
    }
    assert k > 0;
    assert num[0] == t[0];
    TrimKeeps(num, t[0]);
    TrimKeeps(Trim(num), t[0]);
    if '%' in num {
      PercentIsNotNumeric();
      TrimKeeps(num, '%');
      TrimKeeps(Trim(num), '%');
      assert false;
    }
  }

  lemma SpaceIsNotPlain(t: string, k: nat)
    requires k < |t| && IsSpace(t[k])
    ensures !IsPlain(t)
  {
  }

  lemma PercentIsNotNumeric()
    ensures !IsNumeric('%') && !IsSpace('%')
  {
  }

  lemma ModelStart(t: string)
    requires Trimmed(t) && ModelOf(t).Some?
    ensures t != "" && t[0] in ['g', 'c']
  {
  }

  lemma {:induction false} PlainIsOneWord(t: string)
    requires IsPlain(t)
    ensures Word(t) == t
  {
    hide IsSpace;
    assert IsAlphabetic(t[0]) || IsDigit(t[0]) || t[0] in "/_.-";
    PlainIsNotSpace(t[0]);
    assert t == [t[0]] + t[1..];
    if t[1..] != "" {
      PlainIsOneWord(t[1..]);
    }
  }

  lemma PlainIsNotSpace(c: char)
    requires IsAlphabetic(c) || IsDigit(c) || c in "/_.-"
    ensures !IsSpace(c)
  {
  }

  /** Only a token of several words carries an effort. */
  lemma EffortIsNotPlain(t: string)
    ensures EffortOf(t).Some? ==> !IsPlain(t)
  {
    if IsPlain(t) {
      PlainIsOneWord(t);
      PlainIsNotSpace(t[0]);
      assert t[|t|..] == "";
      assert Words(t) == [t] + Words("");
      assert Words(t)[1..] == [];
    }
  }

  lemma ContextStart(t: string)
    requires ContextOf(t).Some?
    ensures t != "" && t[0] == 'C' && '%' in t && !IsPlain(t)
  {
    var rest := t[|"Context "|..];
    assert t == "Context " + rest;
    assert rest[|rest| - 6..] == "% used";
    assert rest[|rest| - 6] == rest[|rest| - 6..][0] == '%';
    assert t[|t| - 6] == '%';
  }

  lemma PercentStart(t: string, name: string)
    requires name != "" && PercentOf(t, name).Some?
    ensures t != "" && t[0] == name[0] && '%' in t && !IsPlain(t)
  {
    var rest := t[|name|..];
    assert t == name + rest;
    assert '%' in TrimStart(rest);
    TrimStartIsSuffix(rest);
    assert '%' in rest;
    var k :| 0 <= k < |t| && t[k] == '%';
  }

  lemma {:induction false} TrimStartIsSuffix(s: string)
    ensures forall c :: c in TrimStart(s) ==> c in s
  {
    if s != "" && IsSpace(s[0]) {
      TrimStartIsSuffix(s[1..]);
    }
  }

  lemma SuffixesDiffer(t: string)
    ensures StripSuffix(t, " used").Some? ==>
              StripSuffix(t, " in").None? && StripSuffix(t, " out").None? && StripSuffix(t, " window").None?
    ensures StripSuffix(t, " in").Some? ==> StripSuffix(t, " out").None? && StripSuffix(t, " window").None?
    ensures StripSuffix(t, " out").Some? ==> StripSuffix(t, " window").None?
  {
    if t != "" {
      var c := t[|t| - 1];
      forall suffix: string | suffix != "" && EndsWith(t, suffix)
        ensures c == suffix[|suffix| - 1]
      {
        assert t[|t| - |suffix|..][|suffix| - 1] == c;
      }
    }
  }

  lemma CountsExclude(t: string, count: string -> Option<nat>)
    ensures CountOf(t, " used", count).Some? ==>
              CountOf(t, " in", count).None? && CountOf(t, " out", count).None? && CountOf(t, " window", count).None?
    ensures CountOf(t, " in", count).Some? ==> CountOf(t, " out", count).None? && CountOf(t, " window", count).None?
    ensures CountOf(t, " out", count).Some? ==> CountOf(t, " window", count).None?
  {
    hide StripSuffix;
    SuffixesDiffer(t);
  }

  ghost predicate NoCount(t: string, count: string -> Option<nat>) {
    && CountOf(t, " used", count).None?
    && CountOf(t, " in", count).None?
    && CountOf(t, " out", count).None?
    && CountOf(t, " window", count).None?
  }

  /** No token has two forms, except that a path or a model name may look like a plain identifier. */
  lemma FormsExclude(t: string, count: string -> Option<nat>)
    requires Numeric(count) && Trimmed(t)
    ensures PathOf(t).Some? ==>
              && ModelOf(t).None? && ContextOf(t).None?
              && PercentOf(t, "5h").None? && PercentOf(t, "weekly").None? && NoCount(t, count)
    ensures ModelOf(t).Some? ==>
              ContextOf(t).None? && PercentOf(t, "5h").None? && PercentOf(t, "weekly").None? && NoCount(t, count)
    ensures ContextOf(t).Some? ==>
              PercentOf(t, "5h").None? && PercentOf(t, "weekly").None? && NoCount(t, count) && !IsPlain(t)
    ensures PercentOf(t, "5h").Some? ==> PercentOf(t, "weekly").None? && NoCount(t, count) && !IsPlain(t)
    ensures PercentOf(t, "weekly").Some? ==> NoCount(t, count) && !IsPlain(t)
    ensures !NoCount(t, count) ==> !IsPlain(t)
    ensures EffortOf(t).Some? ==> ModelOf(t).Some? && !IsPlain(t)
    ensures CountOf(t, " used", count).Some? ==>
              CountOf(t, " in", count).None? && CountOf(t, " out", count).None? && CountOf(t, " window", count).None?
    ensures CountOf(t, " in", count).Some? ==> CountOf(t, " out", count).None? && CountOf(t, " window", count).None?
    ensures CountOf(t, " out", count).Some? ==> CountOf(t, " window", count).None?
  {
    CountsExclude(t, count);
    hide Numeric, CountOf, PercentOf, ContextOf, ModelOf, EffortOf, IsPlain, Trimmed;
    EffortIsNotPlain(t);
    EffortNeedsModel(t);
    if ModelOf(t).Some? {
      ModelStart(t);
    }
    if ContextOf(t).Some? {
      ContextStart(t);
    }
    if PercentOf(t, "5h").Some? {
      PercentStart(t, "5h");
    }
    if PercentOf(t, "weekly").Some? {
      PercentStart(t, "weekly");
    }
    if !NoCount(t, count) {
      SpaceFirst();
      if CountOf(t, " used", count).Some? {
        CountIsNumeric(t, " used", count);
      } else if CountOf(t, " in", count).Some? {
        CountIsNumeric(t, " in", count);
      } else if CountOf(t, " out", count).Some? {
        CountIsNumeric(t, " out", count);
      } else {
        CountIsNumeric(t, " window", count);
      }
    }
  }

  /** The part of `FormsExclude` about the forms that no identifier has. */
  lemma PercentsExclude(t: string, count: string -> Option<nat>)
    requires Numeric(count) && Trimmed(t)
    ensures ContextOf(t).Some? ==> PercentOf(t, "5h").None? && PercentOf(t, "weekly").None?
    ensures PercentOf(t, "5h").Some? ==> PercentOf(t, "weekly").None?
    ensures ContextOf(t).Some? || PercentOf(t, "5h").Some? || PercentOf(t, "weekly").Some? ==>
              NoCount(t, count) && !IsPlain(t)
    ensures !NoCount(t, count) ==> !IsPlain(t)
  {
    FormsExclude(t, count);
    hide Numeric, Trimmed, PathOf, ModelOf, EffortOf, ContextOf, PercentOf, CountOf, IsPlain;
  }

  lemma SpaceFirst()
    ensures IsSpace(' ')
  {
  }

  lemma EffortNeedsModel(t: string)
    ensures EffortOf(t).Some? ==> ModelOf(t).Some?
  {
  }

  // ----- The token loop -----

  /** A plain identifier that is neither the path nor the model, after the model. */
  predicate IsCandidate(f: Fields, t: string) {
    f.model.Some? && IsPlain(t) && (f.path.Some? || PathOf(t).None?)
  }

  /** What one token adds: every form is looked at, whatever the others say. */
  function Stepped(f: Fields, skipNextPlain: bool, t: string, count: string -> Option<nat>): (Fields, bool) {
    var isFree := f.branch.None? && IsCandidate(f, t);
    (Fields(
       OrElse(ContextOf(t), f.context),
       OrElse(f.quota5h, PercentOf(t, "5h")),
       OrElse(f.quotaWeekly, PercentOf(t, "weekly")),
       OrElse(f.total, CountOf(t, " used", count)),
       OrElse(f.input, CountOf(t, " in", count)),
       OrElse(f.output, CountOf(t, " out", count)),
       OrElse(f.model, ModelOf(t)),
       OrElse(f.effort, EffortOf(t)),
       OrElse(f.path, PathOf(t)),
       if isFree && !skipNextPlain then Some(t) else f.branch,
       OrElse(f.window, CountOf(t, " window", count))),
     if f.model.None? && ModelOf(t).Some? then true else if isFree then false else skipNextPlain)
  }

  lemma PathStep(f: Fields, skip: bool, t: string, count: string -> Option<nat>)
    requires Numeric(count) && Trimmed(t) && f.path.None? && PathOf(t).Some?
    ensures Stepped(f, skip, t, count) == (f.(path := PathOf(t)), skip)
  {
    FormsExclude(t, count);
    hide Numeric, Trimmed, PathOf, ModelOf, EffortOf, ContextOf, PercentOf, CountOf, IsPlain;
    EffortNeedsModel(t);
  }

  lemma ModelStep(f: Fields, skip: bool, t: string, count: string -> Option<nat>)
    requires Numeric(count) && Trimmed(t) && ModelOf(t).Some?
    requires f.model.None? || EffortOf(t).Some?
    ensures Stepped(f, skip, t, count)
         == (f.(model := OrElse(f.model, ModelOf(t)), effort := OrElse(f.effort, EffortOf(t))), f.model.None? || skip)
  {
    FormsExclude(t, count);
    hide Numeric, Trimmed, PathOf, ModelOf, EffortOf, ContextOf, PercentOf, CountOf, IsPlain;
  }

  lemma PercentStep(f: Fields, skip: bool, t: string, count: string -> Option<nat>)
    requires Numeric(count) && Trimmed(t)
    requires ContextOf(t).Some? || PercentOf(t, "5h").Some? || PercentOf(t, "weekly").Some?
    ensures Stepped(f, skip, t, count)
         == (f.(context := OrElse(ContextOf(t), f.context), quota5h := OrElse(f.quota5h, PercentOf(t, "5h")),
                quotaWeekly := OrElse(f.quotaWeekly, PercentOf(t, "weekly"))), skip)
  {
    FormsExclude(t, count);
    hide Numeric, Trimmed, PathOf, ModelOf, EffortOf, ContextOf, PercentOf, CountOf, IsPlain;
  }

  lemma CountStep(f: Fields, skip: bool, t: string, count: string -> Option<nat>)
    requires Numeric(count) && Trimmed(t) && !NoCount(t, count)
    ensures Stepped(f, skip, t, count)
         == (f.(total := OrElse(f.total, CountOf(t, " used", count)),
                input := OrElse(f.input, CountOf(t, " in", count)),
                output := OrElse(f.output, CountOf(t, " out", count)),
                window := OrElse(f.window, CountOf(t, " window", count))), skip)
  {
    FormsExclude(t, count);
    hide Numeric, Trimmed, PathOf, ModelOf, EffortOf, ContextOf, PercentOf, CountOf, IsPlain;
  }

  /** The loop body: the first rule that applies consumes the token. As the forms exclude each other, that
      comes to looking at every form. */
  method StepToken(f: Fields, skipNextPlain: bool, t: string, count: string -> Option<nat>)
    returns (r: Fields, skip: bool)
    requires Numeric(count) && Trimmed(t)
    ensures (r, skip) == Stepped(f, skipNextPlain, t, count)
  {
    hide Numeric, PercentOf, ContextOf, ModelOf, EffortOf, IsPlain, Trimmed, PathOf, CountOf;
    r, skip := f, skipNextPlain;
    if f.path.None? && PathOf(t).Some? {
      PathStep(f, skip, t, count);
      r := f.(path := PathOf(t));
    } else if f.effort.None? && ModelOf(t).Some? && EffortOf(t).Some? {
      ModelStep(f, skip, t, count);
      r := f.(effort := EffortOf(t));
      if f.model.None? {
        r := r.(model := ModelOf(t));
        skip := true;
      }
    } else if f.model.None? && ModelOf(t).Some? {
      ModelStep(f, skip, t, count);
      r := f.(model := ModelOf(t));
      if f.effort.None? {
        r := r.(effort := EffortOf(t));
      }
      skip := true;
    } else {
      EffortNeedsModel(t);
      r, skip := StepOther(f, skip, t, count);
    }
  }

  /** The rules of the loop body below those for the path and the model. */
  method StepOther(f: Fields, skipNextPlain: bool, t: string, count: string -> Option<nat>)
    returns (r: Fields, skip: bool)
    requires Numeric(count) && Trimmed(t)
    requires (f.path.Some? || PathOf(t).None?) && (f.model.Some? || ModelOf(t).None?)
    requires f.effort.Some? || EffortOf(t).None?
    ensures (r, skip) == Stepped(f, skipNextPlain, t, count)
  {
    hide Numeric, PercentOf, ContextOf, ModelOf, EffortOf, IsPlain, Trimmed, PathOf, CountOf;
    r, skip := f, skipNextPlain;
    if ContextOf(t).Some? || PercentOf(t, "5h").Some? || PercentOf(t, "weekly").Some? {
      PercentStep(f, skip, t, count);
    } else if !NoCount(t, count) {
      CountStep(f, skip, t, count);
      CountsExclude(t, count);
    }
    PercentsExclude(t, count);
    if ContextOf(t).Some? {
      r := f.(context := ContextOf(t));
    } else if f.quota5h.None? && PercentOf(t, "5h").Some? {
      r := f.(quota5h := PercentOf(t, "5h"));
    } else if f.quotaWeekly.None? && PercentOf(t, "weekly").Some? {
      r := f.(quotaWeekly := PercentOf(t, "weekly"));
    } else if f.total.None? && CountOf(t, " used", count).Some? {
      r := f.(total := CountOf(t, " used", count));
    } else if f.input.None? && CountOf(t, " in", count).Some? {
      r := f.(input := CountOf(t, " in", count));
    } else if f.output.None? && CountOf(t, " out", count).Some? {
      r := f.(output := CountOf(t, " out", count));
    } else if f.window.None? && CountOf(t, " window", count).Some? {
      r := f.(window := CountOf(t, " window", count));
    } else if f.branch.None? && f.model.Some? && IsPlain(t) {
      if skipNextPlain {
        skip := false;
      } else {
        r := f.(branch := Some(t));
      }
    }
  }

  /** The project name is still to be skipped: the model was seen, and no plain token after it. */
  ghost predicate ProjectPending(ts: seq<string>) {
    First(ts, ModelOf).Some? && PlainAfterModel(ts) == []
  }

  lemma {:induction false} PlainNeedsModel(ts: seq<string>)
    ensures PlainAfterModel(ts) != [] ==> First(ts, ModelOf).Some?
  {
    hide ModelOf, IsPlain, PathOf;
    if ts != [] {
      PlainNeedsModel(ts[..|ts| - 1]);
    }
  }

  lemma FieldsGrow(ts: seq<string>, i: nat, count: string -> Option<nat>)
    requires i < |ts|
    ensures (FieldsOf(ts[..i + 1], count), ProjectPending(ts[..i + 1]))
         == Stepped(FieldsOf(ts[..i], count), ProjectPending(ts[..i]), ts[i], count)
  {
    hide PercentOf, ContextOf, ModelOf, EffortOf, IsPlain, PathOf, CountOf;
    assert ts[..i + 1][..i] == ts[..i];
    PlainNeedsModel(ts[..i]);
  }

  lemma FieldsStart(count: string -> Option<nat>)
    ensures FieldsOf([], count) == Fields(None, None, None, None, None, None, None, None, None, None, None)
    ensures !ProjectPending([])
  {
  }

  /** The token loop of `parse_codex_status_line` computes the closed form. */
  method ParseTokens(ts: seq<string>, count: string -> Option<nat>) returns (f: Fields)
    requires Numeric(count) && forall t :: t in ts ==> Trimmed(t)
    ensures f == FieldsOf(ts, count)
  {
    hide Stepped, FieldsOf, Trimmed, Numeric;
    f := Fields(None, None, None, None, None, None, None, None, None, None, None);
    var skipNextPlain := false;
    FieldsStart(count);
    assert ts[..0] == [];
    for i := 0 to |ts|
      invariant f == FieldsOf(ts[..i], count)
      invariant skipNextPlain == ProjectPending(ts[..i])
    {
      FieldsGrow(ts, i, count);
      f, skipNextPlain := StepToken(f, skipNextPlain, ts[i], count);
    }
    assert ts[..|ts|] == ts;
  }

  // ----- The status line -----

  predicate IsStatusLine(line: string) {
    Contains(line, "Context") && Contains(line, "% used") && Contains(line, " \U{B7} ")
  }

  function Tokens(line: string): (ts: seq<string>) {
    var parts := SplitOnStr(line, " \U{B7} ");
    seq(|parts|, i requires 0 <= i < |parts| => Trim(parts[i]))
  }

  lemma TokensAreTrimmed(line: string)
    ensures forall t :: t in Tokens(line) ==> Trimmed(t)
  {
    forall t | t in Tokens(line)
      ensures Trimmed(t)
    {
      var parts := SplitOnStr(line, " \U{B7} ");
      var i :| 0 <= i < |parts| && t == Trim(parts[i]);
      TrimStartIsTrimmed(parts[i]);
    }
  }

  lemma {:induction false} TrimStartIsTrimmed(s: string)
    ensures var t := TrimStart(s); t != "" ==> !IsSpace(t[0])
  {
    if s != "" && IsSpace(s[0]) {
      TrimStartIsTrimmed(s[1..]);
    }
  }

  /** The effort shown on a boxed `Model:` line. */
  function BoxedEffort(line: string): Option<string> {
    if !Contains(line, "\U{2502}") || !Contains(line, "Model:") then None
    else
      var at := FindStr(line, "reasoning ");
      if at.None? then None
      else
        var effort := AlphabeticPrefix(line[at.value + 10..]);
        if IsEffort(effort) then Some(effort) else None
  }

  function AlphabeticPrefix(s: string): string {
    if s != "" && IsAlphabetic(s[0]) then [s[0]] + AlphabeticPrefix(s[1..]) else ""
  }

  /** `parse_codex_reasoning_effort`: the newest boxed line with an effort. */
  method ParseReasoningEffort(lines: seq<string>) returns (effort: Option<string>)
    ensures effort == Last(lines, BoxedEffort)
  {
    hide BoxedEffort;
    var i := |lines|;
    effort := None;
    assert lines[..i] == lines;
    while i > 0 && effort.None?
      invariant 0 <= i <= |lines|
      invariant Last(lines, BoxedEffort) == if effort.Some? then effort else Last(lines[..i], BoxedEffort)
    {
      assert lines[..i][..i - 1] == lines[..i - 1];
      effort := BoxedEffort(lines[i - 1]);
      i := i - 1;
    }
  }

  datatype Status = Status(
    context: nat,
    quota5h: Option<nat>,
    quotaWeekly: Option<nat>,
    total: Option<nat>,
    input: Option<nat>,
    output: Option<nat>,
    model: Option<string>,
    effort: Option<string>,
    path: Option<string>,
    branch: Option<string>,
    window: Option<nat>)

  /** The total shown, or the saturating sum of input and output. */
  function TotalOf(f: Fields): Option<nat> {
    if f.total.Some? then f.total
    else if f.input.Some? && f.output.Some? then
      var sum := f.input.value + f.output.value;
      Some(if sum > U64_MAX then U64_MAX else sum)
    else None
  }

  /** What the newest status-shaped line says; only the effort may come from elsewhere. */
  ghost function StatusOf(line: string, boxed: Option<string>, count: string -> Option<nat>): Option<Status> {
    var f := FieldsOf(Tokens(line), count);
    if f.context.None? then None
    else Some(Status(f.context.value, f.quota5h, f.quotaWeekly, TotalOf(f), f.input, f.output, f.model,
                     OrElse(f.effort, boxed), f.path, f.branch, f.window))
  }

  /** Line `k` is the newest status-shaped one. */
  ghost predicate Newest(lines: seq<string>, k: nat) {
    k < |lines| && IsStatusLine(lines[k]) && forall j :: k < j < |lines| ==> !IsStatusLine(lines[j])
  }

  /** `parse_codex_status_line`: the newest status-shaped line decides, even when its context cannot be
      parsed and an older line's could. */
  method ParseStatusLine(lines: seq<string>, count: string -> Option<nat>) returns (r: Option<Status>)
    requires Numeric(count)
    ensures r.Some? ==> exists k: nat :: Newest(lines, k)
    ensures forall k: nat :: Newest(lines, k) ==> r == StatusOf(lines[k], Last(lines, BoxedEffort), count)
  {
    hide IsStatusLine, FieldsOf, Tokens, BoxedEffort, Numeric, Last;
    var k := |lines|;
    while k > 0
      invariant 0 <= k <= |lines|
      invariant forall j :: k <= j < |lines| ==> !IsStatusLine(lines[j])
    {
      k := k - 1;
      if IsStatusLine(lines[k]) {
        var ts := Tokens(lines[k]);
        TokensAreTrimmed(lines[k]);
        var f := ParseTokens(ts, count);
        assert Newest(lines, k);
        if f.context.Some? {
          var effort := f.effort;
          if effort.None? {
            effort := ParseReasoningEffort(lines);
          }
          return Some(Status(f.context.value, f.quota5h, f.quotaWeekly, TotalOf(f), f.input, f.output, f.model,
                             effort, f.path, f.branch, f.window));
        }
        return None;
      }
    }
    r := None;
  }

  lemma {:induction false} LastConcat<T>(a: seq<string>, b: seq<string>, f: string -> Option<T>)
    ensures Last(a + b, f) == OrElse(Last(b, f), Last(a, f))
  {
    if b == [] {
      assert a + b == a;
    } else {
      LastConcat(a, b[..|b| - 1], f);
      assert (a + b)[..|a + b| - 1] == a + b[..|b| - 1];
    }
  }

  /** Text above a tail that holds a status-shaped line never changes what is reported, except that an effort
      missing from that tail may come from an older boxed line. */
  lemma OlderTextIsIgnored(above: seq<string>, tail: seq<string>, k: nat, count: string -> Option<nat>)
    requires Newest(tail, k)
    ensures Newest(above + tail, |above| + k)
    ensures var alone := StatusOf(tail[k], Last(tail, BoxedEffort), count);
            var under := StatusOf((above + tail)[|above| + k], Last(above + tail, BoxedEffort), count);
            && (alone.None? <==> under.None?)
            && (alone.Some? ==>
                  under.value == alone.value.(effort := OrElse(alone.value.effort, Last(above, BoxedEffort))))
  {
    hide IsStatusLine, FieldsOf, Tokens, BoxedEffort, Last, TotalOf;
    LastConcat(above, tail, BoxedEffort);
    assert (above + tail)[|above| + k] == tail[k];
    forall j | |above| + k < j < |above + tail|
      ensures !IsStatusLine((above + tail)[j])
    {
      assert (above + tail)[j] == tail[j - |above|];
    }
  }

  // ----- The token forms, said without the parsers -----

  lemma PathIff(t: string, p: string)
    ensures PathOf(t) == Some(p) <==> p == t && exists rest :: t == "~" + rest || t == "/" + rest
  {
    if t != "" {
      assert t == [t[0]] + t[1..];
    }
  }

  ghost predicate HasProviderPrefix(w: string) {
    exists rest :: w == "gpt-" + rest || w == "claude-" + rest || w == "gemini-" + rest
  }

  lemma ProviderModelIff(w: string)
    ensures IsProviderModel(w) <==> HasProviderPrefix(w)
  {
    StartsWithIff(w, "gpt-");
    StartsWithIff(w, "claude-");
    StartsWithIff(w, "gemini-");
  }

  /** A token is a model token by its first word; its effort is that of the first later word that spells one. */
  lemma ModelTokenIs(w: string, rest: string)
    requires IsWord(w) && (rest != "" ==> IsSpace(rest[0]))
    ensures ModelOf(w + rest) == if HasProviderPrefix(w) then Some(w) else None
    ensures EffortOf(w + rest) == if HasProviderPrefix(w) then FirstEffort(Words(rest)) else None
  {
    hide FirstEffort, Words, IsProviderModel, HasProviderPrefix;
    WordsStep(w, rest);
    ProviderModelIff(w);
    assert ([w] + Words(rest))[1..] == Words(rest);
  }

  lemma {:induction false} FirstEffortIs(ws: seq<string>, i: nat)
    requires i < |ws| && EffortWord(ws[i]).Some? && forall j :: 0 <= j < i ==> EffortWord(ws[j]).None?
    ensures FirstEffort(ws) == EffortWord(ws[i])
  {
    hide EffortWord;
    if i > 0 {
      FirstEffortIs(ws[1..], i - 1);
    }
  }

  lemma {:induction false} NoEffortIs(ws: seq<string>)
    requires forall j :: 0 <= j < |ws| ==> EffortWord(ws[j]).None?
    ensures FirstEffort(ws) == None
  {
    hide EffortWord;
    if ws != [] {
      NoEffortIs(ws[1..]);
    }
  }

  predicate NoLetters(s: string) {
    forall i :: 0 <= i < |s| ==> !(65 <= s[i] as int <= 90) && !(97 <= s[i] as int <= 122)
  }

  lemma {:induction false} LettersStartAfter(a: string, s: string)
    requires NoLetters(a)
    ensures TrimNonAlphabetic(a + s) == TrimNonAlphabetic(s)
  {
    if a == "" {
      assert a + s == s;
    } else {
      LettersStartAfter(a[1..], s);
      assert (a + s)[1..] == a[1..] + s;
      assert (a + s)[0] == a[0];
    }
  }

  lemma {:induction false} LettersEndBefore(core: string, b: string)
    requires NoLetters(b) && core != "" && IsAlphabetic(core[0]) && IsAlphabetic(core[|core| - 1])
    ensures TrimNonAlphabetic(core + b) == core
  {
    if b == "" {
      assert core + b == core;
    } else {
      LettersEndBefore(core, b[..|b| - 1]);
      var w := core + b;
      assert w[..|w| - 1] == core + b[..|b| - 1];
      assert w[0] == core[0] && w[|w| - 1] == b[|b| - 1];
    }
  }

  lemma {:induction false} LettersAreInside(w: string) returns (a: string, b: string)
    ensures w == a + TrimNonAlphabetic(w) + b && NoLetters(a) && NoLetters(b)
    decreases |w|
  {
    a, b := "", "";
    if w != "" && !IsAlphabetic(w[0]) {
      a, b := LettersAreInside(w[1..]);
      a := [w[0]] + a;
      assert w == [w[0]] + w[1..];
    } else if w != "" && !IsAlphabetic(w[|w| - 1]) {
      a, b := LettersAreInside(w[..|w| - 1]);
      b := b + [w[|w| - 1]];
      assert w == w[..|w| - 1] + [w[|w| - 1]];
    } else {
      assert w == "" + w + "";
    }
  }

  /** A word is an effort when it spells one, up to case and the characters around it that are no letters. */
  lemma EffortWordIs(a: string, core: string, b: string, effort: string)
    requires NoLetters(a) && NoLetters(b) && Spells(core, effort)
    requires effort in ["xhigh", "high", "medium", "low", "auto"]
    ensures EffortWord(a + core + b) == Some(effort)
  {
    hide TrimNonAlphabetic, IsAlphabetic;
    SpelledWord(core, effort);
    assert a + core + b == a + (core + b);
    LettersStartAfter(a, core + b);
    LettersEndBefore(core, b);
    SpellsIff(core, effort);
  }

  lemma SpelledWord(core: string, effort: string)
    requires Spells(core, effort) && effort in ["xhigh", "high", "medium", "low", "auto"]
    ensures core != "" && IsAlphabetic(core[0]) && IsAlphabetic(core[|core| - 1]) && NoCapitals(effort)
  {
  }

  lemma EffortWordHolds(w: string) returns (a: string, core: string, b: string)
    requires EffortWord(w).Some?
    ensures w == a + core + b && NoLetters(a) && NoLetters(b) && Spells(core, EffortWord(w).value)
    ensures EffortWord(w).value in ["xhigh", "high", "medium", "low", "auto"]
  {
    hide TrimNonAlphabetic;
    core := TrimNonAlphabetic(w);
    a, b := LettersAreInside(w);
    SpellsIff(core, EffortWord(w).value);
  }

  lemma ContextIff(t: string, n: nat)
    ensures ContextOf(t) == Some(n) <==> exists num :: t == "Context " + num + "% used" && ParseU8(num) == Some(n)
  {
    hide ParseU8;
    if num :| t == "Context " + num + "% used" && ParseU8(num) == Some(n) {
      assert t[8..] == num + "% used";
      assert (num + "% used")[..|num|] == num;
      EndsWithIff(num + "% used", "% used");
    }
    if ContextOf(t) == Some(n) {
      var rest := t[8..];
      assert t == "Context " + rest && rest == rest[..|rest| - 6] + "% used";
      assert t == "Context " + rest[..|rest| - 6] + "% used";
    }
  }

  /** The number in front of the first per cent sign behind the label. */
  lemma PercentTokenIs(name: string, gap: string, num: string, rest: string)
    requires Blank(gap) && '%' !in num && (num != "" ==> !IsSpace(num[0]))
    ensures PercentOf(name + (gap + (num + "%" + rest)), name)
         == var n := ParseU8(Trim(num)); if n.Some? && n.value <= 100 then n else None
  {
    hide ParseU8, Trim, TrimStart, Find;
    var t := name + (gap + (num + "%" + rest));
    assert t[|name|..] == gap + (num + "%" + rest);
    PercentIsNoSpace();
    TrimStartIs(gap, num + "%" + rest);
    var r := num + "%" + rest;
    assert r[..|num|] == num && r[|num|] == '%';
    FirstIsFound(r, '%', |num|);
  }

  lemma PercentIsNoSpace()
    ensures !IsSpace('%')
  {
  }

  lemma PercentNeedsLabel(t: string, name: string)
    requires PercentOf(t, name).Some?
    ensures exists gap, num, rest :: t == name + (gap + (num + "%" + rest)) && Blank(gap) && '%' !in num
  {
    hide ParseU8, Trim;
    var tail := t[|name|..];
    var gap := TrimStartSplits(tail);
    var r := TrimStart(tail);
    var at := Find(r, '%').value;
    assert r == r[..at] + "%" + r[at + 1..];
    assert t == name + (gap + (r[..at] + "%" + r[at + 1..]));
  }

  lemma CountTokenIs(num: string, suffix: string, count: string -> Option<nat>)
    ensures CountOf(num + suffix, suffix, count) == count(Trim(num))
  {
    hide Trim;
    EndsWithIff(num + suffix, suffix);
    assert (num + suffix)[..|num|] == num;
  }

  lemma CountNeedsSuffix(t: string, suffix: string, count: string -> Option<nat>)
    requires CountOf(t, suffix, count).Some?
    ensures exists num :: t == num + suffix
  {
    EndsWithIff(t, suffix);
  }

  /** At most 60 ASCII letters, digits, slashes, underscores, dots and hyphens. */
  lemma PlainIff(t: string)
    ensures IsPlain(t) <==>
              && 1 <= |t| <= 60
              && forall i :: 0 <= i < |t| ==>
                   || 65 <= t[i] as int <= 90 || 97 <= t[i] as int <= 122 || 48 <= t[i] as int <= 57
                   || t[i] == '/' || t[i] == '_' || t[i] == '.' || t[i] == '-'
  {
  }

  lemma StatusLineIff(line: string)
    ensures IsStatusLine(line) <==>
              && (exists a, b :: line == a + "Context" + b) && (exists a, b :: line == a + "% used" + b)
              && (exists a, b :: line == a + " \U{B7} " + b)
  {
    ContainsIff(line, "Context");
    ContainsIff(line, "% used");
    ContainsIff(line, " \U{B7} ");
  }

  // ----- What a further token adds -----

  /** A percentage, by its label, in a line that had none yet; the context always. */
  lemma PercentTokenAdds(ts: seq<string>, t: string, count: string -> Option<nat>)
    requires Numeric(count) && Trimmed(t)
    ensures var f, g := FieldsOf(ts, count), FieldsOf(ts + [t], count);
            && (ContextOf(t).Some? ==> g == f.(context := ContextOf(t)))
            && (PercentOf(t, "5h").Some? && f.quota5h.None? ==> g == f.(quota5h := PercentOf(t, "5h")))
            && (PercentOf(t, "weekly").Some? && f.quotaWeekly.None? ==> g == f.(quotaWeekly := PercentOf(t, "weekly")))
  {
    hide FieldsOf, ContextOf, PercentOf, Numeric, Trimmed, Stepped;
    TokenSteps(ts, t, count);
    if ContextOf(t).Some? || PercentOf(t, "5h").Some? || PercentOf(t, "weekly").Some? {
      PercentStep(FieldsOf(ts, count), ProjectPending(ts), t, count);
      PercentsExclude(t, count);
    }
  }

  lemma TokenSteps(ts: seq<string>, t: string, count: string -> Option<nat>)
    ensures (FieldsOf(ts + [t], count), ProjectPending(ts + [t]))
         == Stepped(FieldsOf(ts, count), ProjectPending(ts), t, count)
  {
    hide FieldsOf, ProjectPending, Stepped;
    FieldsGrow(ts + [t], |ts|, count);
    assert (ts + [t])[..|ts|] == ts && (ts + [t])[..|ts| + 1] == ts + [t];
  }

  /** A count, by its unit, in a line that had none yet. */
  lemma CountTokenAdds(ts: seq<string>, t: string, count: string -> Option<nat>)
    requires Numeric(count) && Trimmed(t)
    ensures var f, g := FieldsOf(ts, count), FieldsOf(ts + [t], count);
            && (CountOf(t, " used", count).Some? && f.total.None? ==> g == f.(total := CountOf(t, " used", count)))
            && (CountOf(t, " in", count).Some? && f.input.None? ==> g == f.(input := CountOf(t, " in", count)))
            && (CountOf(t, " out", count).Some? && f.output.None? ==> g == f.(output := CountOf(t, " out", count)))
            && (CountOf(t, " window", count).Some? && f.window.None? ==>
                  g == f.(window := CountOf(t, " window", count)))
  {
    hide FieldsOf, CountOf, Numeric, Trimmed, Stepped;
    TokenSteps(ts, t, count);
    if !NoCount(t, count) {
      CountStep(FieldsOf(ts, count), ProjectPending(ts), t, count);
      CountsExclude(t, count);
    }
  }

  /** The first path, the first model with its effort; then the project name, which is skipped, and the branch. */
  lemma NameTokenAdds(ts: seq<string>, t: string, count: string -> Option<nat>)
    requires Numeric(count) && Trimmed(t)
    ensures var f, g := FieldsOf(ts, count), FieldsOf(ts + [t], count);
            && (PathOf(t).Some? && f.path.None? ==> g == f.(path := PathOf(t)))
            && (ModelOf(t).Some? && f.model.None? ==>
                  g == f.(model := ModelOf(t), effort := OrElse(f.effort, EffortOf(t))) && ProjectPending(ts + [t]))
            && (ModelOf(t).Some? && f.model.Some? && EffortOf(t).Some? && f.effort.None? ==>
                  g == f.(effort := EffortOf(t)))
            && (IsPlain(t) && PathOf(t).None? && ModelOf(t).None? && f.model.Some? && f.branch.None? ==>
                  g == (if ProjectPending(ts) then f else f.(branch := Some(t))) && !ProjectPending(ts + [t]))
  {
    hide FieldsOf, PathOf, ModelOf, EffortOf, IsPlain, Numeric, Trimmed, ProjectPending, Stepped;
    TokenSteps(ts, t, count);
    var f := FieldsOf(ts, count);
    if PathOf(t).Some? && f.path.None? {
      PathStep(f, ProjectPending(ts), t, count);
    }
    if ModelOf(t).Some? && (f.model.None? || EffortOf(t).Some?) {
      ModelStep(f, ProjectPending(ts), t, count);
    }
    if IsPlain(t) && PathOf(t).None? && ModelOf(t).None? && f.model.Some? && f.branch.None? {
      PlainStep(f, ProjectPending(ts), t, count);
    }
  }

  lemma PlainStep(f: Fields, skip: bool, t: string, count: string -> Option<nat>)
    requires Numeric(count) && Trimmed(t)
    requires IsPlain(t) && PathOf(t).None? && ModelOf(t).None? && f.model.Some? && f.branch.None?
    ensures Stepped(f, skip, t, count) == (if skip then f else f.(branch := Some(t)), false)
  {
    FormsExclude(t, count);
    hide Numeric, Trimmed, PathOf, ModelOf, EffortOf, ContextOf, PercentOf, CountOf, IsPlain;
  }

  // ----- The rest of the line -----

  lemma TotalIs(f: Fields)
    ensures f.total.Some? ==> TotalOf(f) == f.total
    ensures f.total.None? && f.input.Some? && f.output.Some? ==>
              TotalOf(f) == Some(if f.input.value + f.output.value > 18_446_744_073_709_551_615
                                 then 18_446_744_073_709_551_615 else f.input.value + f.output.value)
    ensures f.total.None? && (f.input.None? || f.output.None?) ==> TotalOf(f) == None
  {
  }

  lemma {:induction false} AlphabeticPrefixIs(e: string, rest: string)
    requires (forall i :: 0 <= i < |e| ==> IsAlphabetic(e[i])) && (rest != "" ==> !IsAlphabetic(rest[0]))
    ensures AlphabeticPrefix(e + rest) == e
  {
    hide IsAlphabetic;
    if e == "" {
      assert e + rest == rest;
    } else {
      AlphabeticPrefixIs(e[1..], rest);
      assert (e + rest)[1..] == e[1..] + rest;
    }
  }

  /** A boxed line says an effort when the letters behind its first `reasoning ` are one, in lower case. */
  lemma BoxedEffortIs(before: string, e: string, rest: string)
    requires (forall i :: 0 <= i < |e| ==> IsAlphabetic(e[i])) && (rest != "" ==> !IsAlphabetic(rest[0]))
    requires FirstAt(before + "reasoning " + (e + rest), "reasoning ", |before|)
    ensures var line := before + "reasoning " + (e + rest);
            BoxedEffort(line)
            == if (exists a, b :: line == a + "\U{2502}" + b) && (exists a, b :: line == a + "Model:" + b)
                  && e in ["xhigh", "high", "medium", "low", "auto"]
               then Some(e) else None
  {
    hide IsAlphabetic, FindStr, FirstAt, Contains, AlphabeticPrefix;
    var line := before + "reasoning " + (e + rest);
    ContainsIff(line, "\U{2502}");
    ContainsIff(line, "Model:");
    FindStrIff(line, "reasoning ", |before|);
    assert line[|before| + 10..] == e + rest;
    AlphabeticPrefixIs(e, rest);
  }

  /** The tokens of a line are the parts between its separators, trimmed. */
  lemma {:induction false} TokensOf(t: string, rest: string)
    requires FirstAt(t + " \U{B7} " + rest, " \U{B7} ", |t|)
    ensures Tokens(t + " \U{B7} " + rest) == [Trim(t)] + Tokens(rest)
  {
    hide FirstAt, Trim;
    SplitOnStrAppend(t, rest, " \U{B7} ");
  }

  lemma LastToken(t: string)
    requires !Contains(t, " \U{B7} ")
    ensures Tokens(t) == [Trim(t)]
  {
    hide Contains, Trim;
    SplitOnStrAbsent(t, " \U{B7} ");
  }

  /** The report copies the fields of the line, adds up a missing total, and falls back to a boxed effort. */
  lemma ReportIs(line: string, boxed: Option<string>, count: string -> Option<nat>)
    ensures var f, r := FieldsOf(Tokens(line), count), StatusOf(line, boxed, count);
            && (r.Some? <==> f.context.Some?)
            && (r.Some? ==>
                  && Some(r.value.context) == f.context
                  && r.value.quota5h == f.quota5h && r.value.quotaWeekly == f.quotaWeekly
                  && r.value.total == TotalOf(f) && r.value.input == f.input && r.value.output == f.output
                  && r.value.model == f.model && r.value.path == f.path && r.value.branch == f.branch
                  && r.value.window == f.window
                  && r.value.effort == if f.effort.Some? then f.effort else boxed)
  {
    hide FieldsOf, Tokens, TotalOf;
  }
}
