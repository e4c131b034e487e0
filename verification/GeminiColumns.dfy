/** The status table of the Gemini CLI: splitting a row into columns and reading the columns
    under their headers. */
module GeminiColumns {
  import opened Wrappers
  import opened Text

  // ----- What a row of columns is -----

  /** A non-empty text without white space at its ends or two white space characters in a row. */
  ghost predicate Column(c: string) {
    && c != ""
    && !IsSpace(c[0])
    && !IsSpace(c[|c| - 1])
    && forall i :: 0 < i < |c| ==> !(IsSpace(c[i - 1]) && IsSpace(c[i]))
  }

  /** `text` ends in the last of `cols`; any two columns in a row are separated by at least two white
      space characters, and only white space stands before the first. */
  ghost predicate Row(text: string, cols: seq<string>)
    decreases |cols|, 1
  {
    if cols == [] then Blank(text)
    else exists from: nat :: from <= |text| && RowAt(text, cols, from)
  }

  /** The last column starts at `from`. */
  ghost predicate RowAt(text: string, cols: seq<string>, from: nat)
    requires cols != [] && from <= |text|
    decreases |cols|, 0
  {
    && text[from..] == cols[|cols| - 1]
    && Column(text[from..])
    && if |cols| == 1 then Blank(text[..from])
       else exists e: nat :: e + 2 <= from && Blank(text[e..from]) && Row(text[..e], cols[..|cols| - 1])
  }

  /** `line` is a row of `cols` with trailing white space. */
  ghost predicate IsRowOf(line: string, cols: seq<string>) {
    exists e: nat :: e <= |line| && Blank(line[e..]) && Row(line[..e], cols)
  }

  // ----- A line is a row of one list of columns only -----

  lemma RowEndsDark(text: string, cols: seq<string>)
    requires Row(text, cols) && cols != []
    ensures text != "" && !IsSpace(text[|text| - 1])
  {
    var from: nat :| from <= |text| && RowAt(text, cols, from);
    assert text[|text| - 1] == text[from..][|text| - 1 - from];
  }

  lemma BeforeLast(text: string, cols: seq<string>, from: nat)
    requires cols != [] && from <= |text| && RowAt(text, cols, from)
    ensures |cols| == 1 ==> forall k :: 0 <= k < from ==> IsSpace(text[k])
    ensures |cols| > 1 ==> from >= 2 && IsSpace(text[from - 1]) && IsSpace(text[from - 2])
  {
    if |cols| == 1 {
      assert forall k :: 0 <= k < from ==> text[..from][k] == text[k];
    } else {
      var e: nat :| e + 2 <= from && Blank(text[e..from]) && Row(text[..e], cols[..|cols| - 1]);
      assert text[e..from][from - 1 - e] == text[from - 1] && text[e..from][from - 2 - e] == text[from - 2];
    }
  }

  lemma InLast(text: string, cols: seq<string>, from: nat)
    requires cols != [] && from <= |text| && RowAt(text, cols, from)
    ensures from < |text| && !IsSpace(text[from])
    ensures forall k :: from < k < |text| ==> !(IsSpace(text[k - 1]) && IsSpace(text[k]))
  {
    var c := text[from..];
    assert text[from] == c[0];
    forall k | from < k < |text|
      ensures !(IsSpace(text[k - 1]) && IsSpace(text[k]))
    {
      assert c[k - from - 1] == text[k - 1] && c[k - from] == text[k];
    }
  }

  /** The last column cannot start later in one reading than in another. */
  lemma LastStartsTogether(text: string, a: seq<string>, b: seq<string>, i: nat, j: nat)
    requires a != [] && b != [] && i <= |text| && j <= |text|
    requires RowAt(text, a, i) && RowAt(text, b, j)
    ensures i >= j
  {
    InLast(text, a, i);
    InLast(text, b, j);
    BeforeLast(text, b, j);
  }

  lemma RowInit(text: string, cols: seq<string>, from: nat) returns (e: nat)
    requires cols != [] && from <= |text| && RowAt(text, cols, from)
    ensures e <= from && Blank(text[..from][e..]) && Row(text[..from][..e], cols[..|cols| - 1])
  {
    if |cols| == 1 {
      e := 0;
    } else {
      e :| e + 2 <= from && Blank(text[e..from]) && Row(text[..e], cols[..|cols| - 1]);
      assert text[..from][..e] == text[..e] && text[..from][e..] == text[e..from];
    }
  }

  lemma LastColumnAt(text: string, cols: seq<string>) returns (from: nat)
    requires Row(text, cols) && cols != []
    ensures from <= |text| && RowAt(text, cols, from) && text[from..] == cols[|cols| - 1]
  {
    from :| from <= |text| && RowAt(text, cols, from);
  }

  lemma {:induction false} RowIsUnique(line: string, a: seq<string>, ea: nat, b: seq<string>, eb: nat)
    requires ea <= |line| && Blank(line[ea..]) && Row(line[..ea], a)
    requires eb <= |line| && Blank(line[eb..]) && Row(line[..eb], b)
    ensures a == b
    decreases |a|
  {
    hide RowAt, Column, IsSpace;
    if a == [] || b == [] {
      if a != [] {
        RowEndsDark(line[..ea], a);
      }
      if b != [] {
        RowEndsDark(line[..eb], b);
      }
      BlankThroughout(line, if a == [] then ea else eb);
    } else {
      RowEndsDark(line[..ea], a);
      RowEndsDark(line[..eb], b);
      EndsTogether(line, ea, eb);
      var text := line[..ea];
      var i := LastColumnAt(text, a);
      var j := LastColumnAt(text, b);
      LastStartsTogether(text, a, b, i, j);
      LastStartsTogether(text, b, a, j, i);
      var da := RowInit(text, a, i);
      var db := RowInit(text, b, i);
      RowIsUnique(text[..i], a[..|a| - 1], da, b[..|b| - 1], db);
      assert a == a[..|a| - 1] + [a[|a| - 1]] && b == b[..|b| - 1] + [b[|b| - 1]];
    }
  }

  lemma BlankThroughout(line: string, e: nat)
    requires e <= |line| && Blank(line[..e]) && Blank(line[e..])
    ensures Blank(line)
  {
    assert line == line[..e] + line[e..];
  }

  lemma EndsTogether(line: string, ea: nat, eb: nat)
    requires 0 < ea <= |line| && Blank(line[ea..]) && !IsSpace(line[ea - 1])
    requires 0 < eb <= |line| && Blank(line[eb..]) && !IsSpace(line[eb - 1])
    ensures ea == eb
  {
    BlankFrom(line, ea);
    BlankFrom(line, eb);
  }

  lemma BlankFrom(line: string, e: nat)
    requires e <= |line| && Blank(line[e..])
    ensures forall k :: e <= k < |line| ==> IsSpace(line[k])
  {
    assert forall k :: e <= k < |line| ==> line[e..][k - e] == line[k];
  }

  /** What separates two columns: at least two white space characters. */
  ghost predicate Gap(g: string) {
    |g| >= 2 && Blank(g)
  }

  ghost function JoinWith(cols: seq<string>, gaps: seq<string>): string
    requires cols != [] && |gaps| == |cols| - 1
  {
    if |cols| == 1 then cols[0]
    else JoinWith(cols[..|cols| - 1], gaps[..|gaps| - 1]) + gaps[|gaps| - 1] + cols[|cols| - 1]
  }

  /** Columns joined by gaps, with any white space around, are a row; so the splitter gives them back. */
  lemma {:induction false} JoinIsRow(lead: string, cols: seq<string>, gaps: seq<string>)
    requires cols != [] && |gaps| == |cols| - 1 && Blank(lead)
    requires forall i :: 0 <= i < |cols| ==> Column(cols[i])
    requires forall i :: 0 <= i < |gaps| ==> Gap(gaps[i])
    ensures Row(lead + JoinWith(cols, gaps), cols)
  {
    var text, last := lead + JoinWith(cols, gaps), cols[|cols| - 1];
    var from := |text| - |last|;
    if |cols| == 1 {
      assert text[from..] == last && text[..from] == lead;
    } else {
      var init, gap := cols[..|cols| - 1], gaps[|gaps| - 1];
      JoinIsRow(lead, init, gaps[..|gaps| - 1]);
      var front := lead + JoinWith(init, gaps[..|gaps| - 1]);
      assert text == front + gap + last;
      assert text[from..] == last && text[|front|..from] == gap && text[..|front|] == front;
    }
    assert RowAt(text, cols, from);
  }

  lemma JoinIsRowOf(lead: string, cols: seq<string>, gaps: seq<string>, trail: string)
    requires cols != [] && |gaps| == |cols| - 1 && Blank(lead) && Blank(trail)
    requires forall i :: 0 <= i < |cols| ==> Column(cols[i])
    requires forall i :: 0 <= i < |gaps| ==> Gap(gaps[i])
    ensures IsRowOf(lead + JoinWith(cols, gaps) + trail, cols)
  {
    JoinIsRow(lead, cols, gaps);
    var text := lead + JoinWith(cols, gaps);
    assert (text + trail)[..|text|] == text && (text + trail)[|text|..] == trail;
  }

  // ----- The splitter -----

  lemma {:induction false} TrimStartSkips(s: string, i: nat)
    requires i <= |s| && Blank(s[..i]) && (i < |s| ==> !IsSpace(s[i]))
    ensures TrimStart(s) == s[i..]
  {
    if i > 0 {
      assert s[..i][0] == s[0];
      assert s[1..][..i - 1] == s[..i][1..];
      TrimStartSkips(s[1..], i - 1);
      assert s[1..][i - 1..] == s[i..];
    }
  }

  lemma TrimTo(s: string, i: nat, j: nat)
    requires i < j <= |s| && Blank(s[..i]) && Blank(s[j..])
    requires !IsSpace(s[i]) && !IsSpace(s[j - 1])
    ensures Trim(s) == s[i..j]
  {
    TrimStartSkips(s, i);
    BlankFrom(s, j);
    var t := s[i..];
    assert t[j - 1 - i] == s[j - 1];
    assert forall k :: j - i <= k < |t| ==> t[k] == s[i + k];
  }

  lemma TrimBlank(s: string)
    requires Blank(s)
    ensures Trim(s) == ""
  {
    TrimStartSkips(s, |s|);
  }

  /** What the loop knows after reading `text`: the pushed columns and the current one, which covers
      `text[from..e]`, make up the row, and `text[e..]` is the white space read since. */
  ghost predicate Reading(text: string, cols: seq<string>, start: nat, from: nat, e: nat) {
    && start <= from < e <= |text|
    && Blank(text[start..from])
    && Blank(text[e..])
    && RowAt(text[..e], cols + [text[from..e]], from)
  }

  lemma FirstColumn(line: string, i: nat)
    requires i < |line| && !IsSpace(line[i]) && Blank(line[..i])
    ensures Reading(line[..i + 1], [], 0, i, i + 1) && Reading(line[..i + 1], [], i, i, i + 1)
  {
    var text := line[..i + 1];
    assert text[..i + 1] == text && text[i..] == [line[i]] && text[..i] == line[..i];
    assert text[0..i] == text[..i];
    assert [] + [text[i..i + 1]] == [text[i..]];
  }

  /** The text of the current column is what the source trims out of the line. */
  lemma CurrentColumn(text: string, cols: seq<string>, start: nat, from: nat, e: nat, end: nat)
    requires Reading(text, cols, start, from, e) && e <= end <= |text|
    ensures Trim(text[start..end]) == text[from..e] != ""
  {
    var s := text[start..end];
    InLast(text[..e], cols + [text[from..e]], from);
    RowEndsDark(text[..e], cols + [text[from..e]]);
    assert s[..from - start] == text[start..from];
    BlankFrom(text, e);
    assert forall k :: 0 <= k < |s| ==> s[k] == text[start + k];
    assert Blank(s[e - start..]);
    TrimTo(s, from - start, e - start);
    assert |s[from - start..e - start]| == |text[from..e]|;
  }

  lemma LastColumn(line: string, cols: seq<string>, start: nat, from: nat, e: nat)
    requires Reading(line, cols, start, from, e)
    ensures IsRowOf(line, cols + [line[from..e]])
  {
    assert Row(line[..e], cols + [line[from..e]]);
  }

  lemma NoColumn(line: string)
    requires Blank(line)
    ensures IsRowOf(line, [])
  {
    assert line[0..] == line && Row(line[..0], []);
  }

  lemma OnlyRow(line: string, cols: seq<string>)
    requires IsRowOf(line, cols)
    ensures forall other :: IsRowOf(line, other) ==> other == cols
  {
    var e: nat :| e <= |line| && Blank(line[e..]) && Row(line[..e], cols);
    forall other | IsRowOf(line, other)
      ensures other == cols
    {
      var d: nat :| d <= |line| && Blank(line[d..]) && Row(line[..d], other);
      RowIsUnique(line, other, d, cols, e);
    }
  }

  /** White space after the current column. */
  lemma ReadingWaits(line: string, i: nat, cols: seq<string>, start: nat, from: nat, e: nat)
    requires i < |line| && IsSpace(line[i]) && Reading(line[..i], cols, start, from, e)
    ensures Reading(line[..i + 1], cols, start, from, e)
  {
    assert line[..i][..e] == line[..i + 1][..e];
    assert line[..i][from..e] == line[..i + 1][from..e];
    assert line[..i][start..from] == line[..i + 1][start..from];
    assert line[..i + 1][e..] == line[..i][e..] + [line[i]];
  }

  lemma ColumnExtends(line: string, from: nat, e: nat, i: nat)
    requires from < e <= i < |line| && i < e + 2 && Column(line[from..e]) && !IsSpace(line[i])
    ensures Column(line[from..i + 1])
  {
    var old', c := line[from..e], line[from..i + 1];
    assert forall k :: 0 <= k < |old'| ==> c[k] == old'[k];
    assert c[|c| - 1] == line[i];
  }

  /** After at most one white space character the current column goes on. */
  lemma ReadingExtends(line: string, i: nat, cols: seq<string>, start: nat, from: nat, e: nat)
    requires i < |line| && !IsSpace(line[i]) && i < e + 2 && Reading(line[..i], cols, start, from, e)
    ensures Reading(line[..i + 1], cols, start, from, i + 1)
  {
    var text := line[..i + 1];
    var before, after := cols + [line[..i][from..e]], cols + [text[from..i + 1]];
    assert text[..i + 1] == text;
    assert line[..i][start..from] == text[start..from];
    assert line[..i][..e][from..] == line[from..e] && text[from..] == line[from..i + 1];
    ColumnExtends(line, from, e, i);
    assert before[..|cols|] == cols == after[..|cols|];
    if cols == [] {
      assert line[..i][..e][..from] == text[..from];
    } else {
      var d: nat :| d + 2 <= from && Blank(line[..i][..e][d..from]) && Row(line[..i][..e][..d], before[..|cols|]);
      assert line[..i][..e] == text[..e];
      assert text[..e][d..from] == text[d..from] && text[..e][..d] == text[..d];
    }
  }

  /** After two or more, a new column starts. */
  lemma ReadingStarts(line: string, i: nat, cols: seq<string>, start: nat, from: nat, e: nat)
    requires i < |line| && !IsSpace(line[i]) && i >= e + 2 && Reading(line[..i], cols, start, from, e)
    ensures Reading(line[..i + 1], cols + [line[from..e]], i, i, i + 1)
  {
    var text := line[..i + 1];
    var cols' := cols + [line[from..e]];
    var after := cols' + [text[i..i + 1]];
    assert text[..i + 1] == text && text[i..] == [line[i]];
    assert line[..i][from..e] == line[from..e];
    assert line[..i][..e] == text[..e] && line[..i][e..] == text[e..i];
    assert RowAt(text[..e], cols', from);
    assert after[..|after| - 1] == cols' && text[i..i + 1] == text[i..];
    assert e + 2 <= i && Blank(text[e..i]) && Row(text[..e], after[..|after| - 1]);
    assert RowAt(text, after, i);
  }

  /** `split_gemini_status_columns`: the line is a row of the result and of no other list of columns, so
      splitting undoes any joining of columns with two or more white space characters. */
  method SplitColumns(line: string) returns (cols: seq<string>)
    ensures IsRowOf(line, cols)
    ensures forall other :: IsRowOf(line, other) ==> other == cols
  {
    hide Row, RowAt, IsRowOf, Trim, Column;
    cols := [];
    var start := 0;
    var whitespaceStart: Option<nat> := None;
    var whitespaceCount := 0;
    ghost var from, e := 0, 0;

    for i := 0 to |line|
      invariant e + whitespaceCount == i
      invariant whitespaceCount > 0 <==> whitespaceStart.Some?
      invariant whitespaceCount > 0 ==> whitespaceStart.value == e
      invariant e == 0 ==> cols == [] && start == 0 && Blank(line[..i])
      invariant e > 0 ==> Reading(line[..i], cols, start, from, e)
    {
      var ch := line[i];
      assert line[..i + 1] == line[..i] + [ch];
      if IsSpace(ch) {
        if e > 0 {
          ReadingWaits(line, i, cols, start, from, e);
        }
        if whitespaceCount == 0 {
          whitespaceStart := Some(i);
        }
        whitespaceCount := whitespaceCount + 1;
        continue;
      }
      if e == 0 {
        FirstColumn(line, i);
      } else if whitespaceCount < 2 {
        ReadingExtends(line, i, cols, start, from, e);
      } else {
        ReadingStarts(line, i, cols, start, from, e);
      }
      if whitespaceCount >= 2 {
        if whitespaceStart.Some? {
          var col := Trim(line[start..whitespaceStart.value]);
          if e == 0 {
            TrimBlank(line[start..whitespaceStart.value]);
          } else {
            CurrentColumn(line[..i], cols, start, from, e, e);
            assert line[..i][start..e] == line[start..e] && line[..i][from..e] == line[from..e];
          }
          if col != "" {
            cols := cols + [col];
          }
        }
        start := i;
        from := i;
      }
      if e == 0 {
        from := i;
      }
      e := i + 1;
      whitespaceStart := None;
      whitespaceCount := 0;
    }

    assert line[..|line|] == line && line[start..] == line[start..|line|];
    if e > 0 {
      CurrentColumn(line, cols, start, from, e, |line|);
      LastColumn(line, cols, start, from, e);
    } else {
      TrimBlank(line);
      NoColumn(line);
    }
    var col := Trim(line[start..]);
    if col != "" {
      cols := cols + [col];
    }
    OnlyRow(line, cols);
  }

  // ----- Reading the columns under their headers -----

  datatype Field = Branch | Sandbox | Model | Workspace | Context | Quota | Memory

  function FieldOf(header: string): Option<Field> {
    var h := Lower(Trim(header));
    if h == "branch" then Some(Branch)
    else if h == "sandbox" then Some(Sandbox)
    else if h == "/model" || h == "model" then Some(Model)
    else if h == "workspace (/directory)" || h == "workspace" || h == "directory" then Some(Workspace)
    else if h == "context" then Some(Context)
    else if h == "quota" then Some(Quota)
    else if h == "memory" then Some(Memory)
    else None
  }

  /** A cell such as `42% used`, as a fraction. */
  function ParseUsedPercent(cell: string): Option<real> {
    var t := Trim(cell);
    var at := Find(t, '%');
    if at.None? then None
    else if !StartsWith(TrimStart(t[at.value + 1..]), "used") then None
    else
      var pct := ParseU8(Trim(t[..at.value]));
      if pct.Some? && pct.value <= 100 then Some(pct.value as real / 100.0) else None
  }

  datatype Status = Status(
    branch: Option<string>,
    sandbox: Option<string>,
    model: Option<string>,
    workspace: Option<string>,
    context: Option<real>,
    quota: Option<real>,
    memoryMb: Option<real>)

  const NO_STATUS := Status(None, None, None, None, None, None, None)

  /** The cell under the last header of field `f` whose cell is not blank. */
  ghost function CellOf(headers: seq<string>, cells: seq<string>, f: Field): Option<string>
    requires |headers| == |cells|
  {
    if headers == [] then None
    else
      var n := |headers| - 1;
      if FieldOf(headers[n]) == Some(f) && Trim(cells[n]) != "" then Some(Trim(cells[n]))
      else CellOf(headers[..n], cells[..n], f)
  }

  function Bind<T>(cell: Option<string>, parse: string -> Option<T>): Option<T> {
    if cell.Some? then parse(cell.value) else None
  }

  ghost function StatusOf(headers: seq<string>, cells: seq<string>, memoryMb: string -> Option<real>): Status {
    if |headers| != |cells| then NO_STATUS
    else Status(
      CellOf(headers, cells, Branch),
      CellOf(headers, cells, Sandbox),
      CellOf(headers, cells, Model),
      CellOf(headers, cells, Workspace),
      Bind(CellOf(headers, cells, Context), ParseUsedPercent),
      Bind(CellOf(headers, cells, Quota), ParseUsedPercent),
      Bind(CellOf(headers, cells, Memory), memoryMb))
  }

  /** `gemini_status_from_columns`: a row whose number of columns differs from the header's yields no field. */
  method StatusFromColumns(headers: seq<string>, cells: seq<string>, memoryMb: string -> Option<real>)
    returns (status: Status)
    ensures status == StatusOf(headers, cells, memoryMb)
  {
    hide FieldOf, ParseUsedPercent;
    status := NO_STATUS;
    if |headers| != |cells| {
      return;
    }
    for i := 0 to |headers|
      invariant status == StatusOf(headers[..i], cells[..i], memoryMb)
    {
      assert headers[..i + 1][..i] == headers[..i] && cells[..i + 1][..i] == cells[..i];
      var value := Trim(cells[i]);
      if value != "" {
        match FieldOf(headers[i])
        case Some(Branch) => status := status.(branch := Some(value));
        case Some(Sandbox) => status := status.(sandbox := Some(value));
        case Some(Model) => status := status.(model := Some(value));
        case Some(Workspace) => status := status.(workspace := Some(value));
        case Some(Context) => status := status.(context := ParseUsedPercent(value));
        case Some(Quota) => status := status.(quota := ParseUsedPercent(value));
        case Some(Memory) => status := status.(memoryMb := memoryMb(value));
        case None =>
      }
    }
    assert headers[..|headers|] == headers && cells[..|cells|] == cells;
  }

  // ----- Finding the table -----

  predicate IsHeader(line: string) {
    var l := Lower(line);
    && Contains(l, "branch") && Contains(l, "sandbox") && Contains(l, "/model")
    && Contains(l, "quota") && Contains(l, "context") && Contains(l, "memory")
  }

  predicate IsSkipped(line: string) {
    forall i :: 0 <= i < |line| ==> IsSpace(line[i]) || line[i] as int in {0x2D, 0x2500, 0x2501, 0x2550, 0x2584, 0x2580}
  }

  /** Line `d` is the first after the header `h` that is neither blank nor a separator. */
  ghost predicate DataRow(lines: seq<string>, h: nat, d: nat) {
    && h < d < |lines|
    && !IsSkipped(lines[d])
    && forall k :: h < k < d ==> IsSkipped(lines[k])
  }

  /** The header at `h` has a data row from which `status` is read, and it has at least one field. */
  ghost predicate Yields(lines: seq<string>, h: nat, memoryMb: string -> Option<real>, status: Status) {
    && h < |lines|
    && IsHeader(lines[h])
    && status != NO_STATUS
    && exists d: nat, hs, cs :: DataRow(lines, h, d) && IsRowOf(lines[h], hs) && IsRowOf(lines[d], cs)
                                && status == StatusOf(hs, cs, memoryMb)
  }

  /** `parse_gemini_status`: the newest header that yields a field decides. */
  method ParseGeminiStatus(lines: seq<string>, memoryMb: string -> Option<real>) returns (r: Option<Status>)
    ensures r.None? ==> forall h: nat, s :: !Yields(lines, h, memoryMb, s)
    ensures r.Some? ==> exists h: nat :: Yields(lines, h, memoryMb, r.value)
                                      && forall g: nat, s :: g > h ==> !Yields(lines, g, memoryMb, s)
  {
    hide IsHeader, IsSkipped, IsRowOf, StatusOf;
    var h := |lines|;
    while h > 0
      invariant h <= |lines|
      invariant forall g: nat, s :: g >= h ==> !Yields(lines, g, memoryMb, s)
    {
      h := h - 1;
      if !IsHeader(lines[h]) {
        continue;
      }
      var headers := SplitColumns(lines[h]);
      var d := h + 1;
      while d < |lines| && IsSkipped(lines[d])
        invariant h < d <= |lines|
        invariant forall k :: h < k < d ==> IsSkipped(lines[k])
      {
        d := d + 1;
      }
      if d < |lines| {
        var cells := SplitColumns(lines[d]);
        var status := StatusFromColumns(headers, cells, memoryMb);
        assert DataRow(lines, h, d);
        if status != NO_STATUS {
          assert Yields(lines, h, memoryMb, status);
          return Some(status);
        }
      }
    }
    r := None;
  }

  // ----- Headers, cells and percentages, said without the parsers -----

  /** The header is one of the names, up to case and the white space around it. */
  predicate Names(header: string, names: seq<string>) {
    exists w :: w in names && Spells(Trim(header), w)
  }

  lemma FieldNames(header: string)
    ensures FieldOf(header) == Some(Branch) <==> Names(header, ["branch"])
    ensures FieldOf(header) == Some(Sandbox) <==> Names(header, ["sandbox"])
    ensures FieldOf(header) == Some(Model) <==> Names(header, ["/model", "model"])
    ensures FieldOf(header) == Some(Workspace) <==> Names(header, ["workspace (/directory)", "workspace", "directory"])
    ensures FieldOf(header) == Some(Context) <==> Names(header, ["context"])
    ensures FieldOf(header) == Some(Quota) <==> Names(header, ["quota"])
    ensures FieldOf(header) == Some(Memory) <==> Names(header, ["memory"])
  {
    hide Trim, Spells;
    NamedIn(header, ["branch"]);
    NamedIn(header, ["sandbox"]);
    NamedIn(header, ["/model", "model"]);
    NamedIn(header, ["workspace (/directory)", "workspace", "directory"]);
    NamedIn(header, ["context"]);
    NamedIn(header, ["quota"]);
    NamedIn(header, ["memory"]);
  }

  lemma NamedIn(header: string, names: seq<string>)
    requires forall w :: w in names ==> NoCapitals(w)
    ensures Lower(Trim(header)) in names <==> Names(header, names)
  {
    hide Trim, Spells, NoCapitals;
    forall w | w in names
      ensures Lower(Trim(header)) == w <==> Spells(Trim(header), w)
    {
      SpellsIff(Trim(header), w);
    }
  }

  /** Position `i` is the last under one of the names that is not blank. */
  ghost predicate LastUnder(headers: seq<string>, cells: seq<string>, names: seq<string>, i: nat) {
    && i < |headers| == |cells|
    && Names(headers[i], names) && !Blank(cells[i])
    && forall j :: i < j < |headers| && Names(headers[j], names) ==> Blank(cells[j])
  }

  lemma BlankIff(s: string)
    ensures Blank(s) <==> Trim(s) == ""
  {
    if Blank(s) {
      TrimIs(s, "", "");
      assert s + "" + "" == s;
    } else {
      var a, b := TrimSplits(s);
      assert a + "" + b == a + b;
    }
  }

  lemma {:induction false} CellIs(headers: seq<string>, cells: seq<string>, f: Field, names: seq<string>)
    requires |headers| == |cells|
    requires forall h :: h in headers ==> (FieldOf(h) == Some(f) <==> Names(h, names))
    ensures forall i: nat :: LastUnder(headers, cells, names, i) ==> CellOf(headers, cells, f) == Some(Trim(cells[i]))
    ensures CellOf(headers, cells, f).Some? ==> exists i: nat :: LastUnder(headers, cells, names, i)
  {
    hide FieldOf, Names, Trim, Blank;
    if headers != [] {
      var n := |headers| - 1;
      BlankIff(cells[n]);
      CellIs(headers[..n], cells[..n], f, names);
      assert headers[n] in headers;
      if FieldOf(headers[n]) == Some(f) && Trim(cells[n]) != "" {
        assert LastUnder(headers, cells, names, n);
      } else {
        forall i: nat | i < n
          ensures LastUnder(headers, cells, names, i) <==> LastUnder(headers[..n], cells[..n], names, i)
        {
        }
      }
    }
  }

  ghost predicate NoneUnder(headers: seq<string>, cells: seq<string>, names: seq<string>) {
    forall i: nat :: !LastUnder(headers, cells, names, i)
  }

  /** A text field, a percentage or a size, by the names of its header. */
  ghost predicate ReadsUnder<T>(headers: seq<string>, cells: seq<string>, names: seq<string>,
                                parse: string -> Option<T>, field: Option<T>) {
    && (forall i: nat :: LastUnder(headers, cells, names, i) ==> field == parse(Trim(cells[i])))
    && (NoneUnder(headers, cells, names) ==> field == None)
  }

  lemma CellReads<T>(headers: seq<string>, cells: seq<string>, f: Field, names: seq<string>, parse: string -> Option<T>)
    requires |headers| == |cells|
    requires forall h :: FieldOf(h) == Some(f) <==> Names(h, names)
    ensures ReadsUnder(headers, cells, names, parse, Bind(CellOf(headers, cells, f), parse))
  {
    hide FieldOf, Names, Trim, Blank, LastUnder, CellOf;
    CellIs(headers, cells, f, names);
  }

  /** Every field of a row with as many cells as headers, by the names of its header. */
  lemma StatusReads(headers: seq<string>, cells: seq<string>, memoryMb: string -> Option<real>)
    requires |headers| == |cells|
    ensures var r, text := StatusOf(headers, cells, memoryMb), (v: string) => Some(v);
            && ReadsUnder(headers, cells, ["branch"], text, r.branch)
            && ReadsUnder(headers, cells, ["sandbox"], text, r.sandbox)
            && ReadsUnder(headers, cells, ["/model", "model"], text, r.model)
            && ReadsUnder(headers, cells, ["workspace (/directory)", "workspace", "directory"], text, r.workspace)
            && ReadsUnder(headers, cells, ["context"], ParseUsedPercent, r.context)
            && ReadsUnder(headers, cells, ["quota"], ParseUsedPercent, r.quota)
            && ReadsUnder(headers, cells, ["memory"], memoryMb, r.memoryMb)
  {
    hide FieldOf, Names, Trim, Blank, LastUnder, CellOf, ParseUsedPercent, ReadsUnder;
    forall h
      ensures FieldOf(h) == Some(Branch) <==> Names(h, ["branch"])
      ensures FieldOf(h) == Some(Sandbox) <==> Names(h, ["sandbox"])
      ensures FieldOf(h) == Some(Model) <==> Names(h, ["/model", "model"])
      ensures FieldOf(h) == Some(Workspace) <==> Names(h, ["workspace (/directory)", "workspace", "directory"])
      ensures FieldOf(h) == Some(Context) <==> Names(h, ["context"])
      ensures FieldOf(h) == Some(Quota) <==> Names(h, ["quota"])
      ensures FieldOf(h) == Some(Memory) <==> Names(h, ["memory"])
    {
      FieldNames(h);
    }
    var text := (v: string) => Some(v);
    CellReads(headers, cells, Branch, ["branch"], text);
    CellReads(headers, cells, Sandbox, ["sandbox"], text);
    CellReads(headers, cells, Model, ["/model", "model"], text);
    CellReads(headers, cells, Workspace, ["workspace (/directory)", "workspace", "directory"], text);
    CellReads(headers, cells, Context, ["context"], ParseUsedPercent);
    CellReads(headers, cells, Quota, ["quota"], ParseUsedPercent);
    CellReads(headers, cells, Memory, ["memory"], memoryMb);
    BindText(CellOf(headers, cells, Branch));
    BindText(CellOf(headers, cells, Sandbox));
    BindText(CellOf(headers, cells, Model));
    BindText(CellOf(headers, cells, Workspace));
  }

  lemma BindText(cell: Option<string>)
    ensures Bind(cell, (v: string) => Some(v)) == cell
  {
  }

  /** The cell reads as `num`, a percent sign, and the word used behind white space. */
  ghost predicate UsedPercent(cell: string, num: string) {
    '%' !in num && exists tail :: Trim(cell) == num + "%" + tail && SaysUsed(tail)
  }

  ghost predicate SaysUsed(tail: string) {
    exists gap, rest :: tail == gap + ("used" + rest) && Blank(gap)
  }

  lemma SaysUsedIff(tail: string)
    ensures SaysUsed(tail) <==> StartsWith(TrimStart(tail), "used")
  {
    if SaysUsed(tail) {
      var gap, rest :| tail == gap + ("used" + rest) && Blank(gap);
      TrimStartIs(gap, "used" + rest);
    }
    if StartsWith(TrimStart(tail), "used") {
      var gap := TrimStartSplits(tail);
      StartsWithIff(TrimStart(tail), "used");
    }
  }

  lemma PercentAt(t: string, num: string, tail: string)
    requires t == num + "%" + tail && '%' !in num
    ensures Find(t, '%') == Some(|num|) && t[..|num|] == num && t[|num| + 1..] == tail
  {
    assert t[..|num|] == num;
    FirstIsFound(t, '%', |num|);
  }

  /** A cell is a percentage exactly when it reads as a number of at most 100 per cent used. */
  lemma UsedPercentIs(cell: string, num: string)
    requires UsedPercent(cell, num)
    ensures ParseUsedPercent(cell)
         == var n := ParseU8(Trim(num)); if n.Some? && n.value <= 100 then Some(n.value as real / 100.0) else None
  {
    hide Trim, ParseU8, Find, TrimStart, StartsWith, SaysUsed;
    var tail :| Trim(cell) == num + "%" + tail && SaysUsed(tail);
    PercentAt(Trim(cell), num, tail);
    SaysUsedIff(tail);
  }

  lemma OtherCellsAreNone(cell: string)
    requires forall num :: !UsedPercent(cell, num)
    ensures ParseUsedPercent(cell) == None
  {
    hide Trim, ParseU8, Find, TrimStart, StartsWith, SaysUsed;
    var t := Trim(cell);
    if ParseUsedPercent(cell).Some? {
      PercentIsUsed(cell);
    }
  }

  lemma PercentIsUsed(cell: string)
    requires ParseUsedPercent(cell).Some?
    ensures exists num :: UsedPercent(cell, num)
  {
    hide Trim, ParseU8, TrimStart, StartsWith, SaysUsed;
    var t := Trim(cell);
    var at := Find(t, '%').value;
    SaysUsedIff(t[at + 1..]);
    assert t == t[..at] + "%" + t[at + 1..];
    assert UsedPercent(cell, t[..at]);
  }

  lemma HeaderIff(line: string)
    ensures IsHeader(line) <==>
              && Mentions(line, "branch") && Mentions(line, "sandbox") && Mentions(line, "/model")
              && Mentions(line, "quota") && Mentions(line, "context") && Mentions(line, "memory")
  {
    hide Mentions, Contains, Lower;
    MentionsIff(line, "branch");
    MentionsIff(line, "sandbox");
    MentionsIff(line, "/model");
    MentionsIff(line, "quota");
    MentionsIff(line, "context");
    MentionsIff(line, "memory");
  }

  /** Hyphens, light, heavy and double horizontal box lines, and upper and lower half blocks, besides white space. */
  lemma SkippedIff(line: string)
    ensures IsSkipped(line) <==>
              forall c :: c in line ==> IsSpace(c) || c as int in {45, 9472, 9473, 9552, 9600, 9604}
  {
    assert forall i :: 0 <= i < |line| ==> line[i] in line;
  }
}
