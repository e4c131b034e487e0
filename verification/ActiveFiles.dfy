/** Recently touched files, read off the tool-call lines of a tail. */
module ActiveFiles {
  import opened Wrappers
  import opened Text

  const MAX_ACTIVE_FILES: nat := 8

  const FILE_TOOL_MARKERS: seq<string> :=
    ["\U{25CF} Edit(", "\U{25CF} Write(", "\U{25CF} MultiEdit(", "\U{25CF} Update(", "\U{25CF} NotebookEdit("]

  // ----- Bytes of a string -----

  function Utf8(c: char): (bs: seq<nat>)
    ensures 1 <= |bs| <= 4
    ensures |bs| == 1 <==> c as int < 0x80
    ensures forall i :: 1 <= i < |bs| ==> bs[i] >= 0x80
  {
    var n := c as int;
    if n < 0x80 then [n]
    else if n < 0x800 then [0xC0 + n / 0x40, 0x80 + n % 0x40]
    else if n < 0x1_0000 then [0xE0 + n / 0x1000, 0x80 + n / 0x40 % 0x40, 0x80 + n % 0x40]
    else [0xF0 + n / 0x4_0000, 0x80 + n / 0x1000 % 0x40, 0x80 + n / 0x40 % 0x40, 0x80 + n % 0x40]
  }

  function Bytes(s: string): seq<nat> {
    if s == "" then [] else Utf8(s[0]) + Bytes(s[1..])
  }

  /** `&s[..end]`: the prefix of `end` bytes, or nothing when `end` is inside a character, where slicing panics. */
  function SliceTo(s: string, end: nat): Option<string> {
    if end == 0 then Some("")
    else if s == "" || |Utf8(s[0])| > end then None
    else
      var rest := SliceTo(s[1..], end - |Utf8(s[0])|);
      if rest.Some? then Some([s[0]] + rest.value) else None
  }

  /** A comma, a closing parenthesis, or a byte that is white space when read as a character of its own. */
  predicate IsStopByte(b: nat) {
    b == 0x2C || b == 0x29 || 9 <= b <= 13 || b == 0x20 || b == 0x85 || b == 0xA0
  }

  predicate HasStopByte(c: char) {
    exists i :: 0 <= i < |Utf8(c)| && IsStopByte(Utf8(c)[i])
  }

  // ----- The first path of an argument list -----

  predicate LooksLikePath(s: string) {
    var t := Trim(s);
    && |Bytes(t)| >= 2
    && t[0] != '-' && '=' !in t
    && ('/' in t || HasExtension(t))
  }

  /** The text after the last dot is one to eight ASCII letters and digits. */
  predicate HasExtension(t: string) {
    exists i :: 0 <= i < |t| && t[i] == '.' && IsExtension(t[i + 1..])
  }

  predicate IsExtension(ext: string) {
    1 <= |ext| <= 8 && forall k :: 0 <= k < |ext| ==> IsDigit(ext[k]) || 'a' <= LowerAscii(ext[k]) <= 'z'
  }

  /** The text between the first two double quotes. */
  function Quoted(args: string): Option<string> {
    var open := Find(args, '"');
    if open.None? then None
    else
      var rest := args[open.value + 1..];
      var close := Find(rest, '"');
      if close.None? then None else Some(rest[..close.value])
  }

  /** The text before the first character with a stop byte. When that character is not ASCII, the source
      slices inside it and panics. */
  function BareToken(args: string): Option<string> {
    if args == "" then Some("")
    else if !HasStopByte(args[0]) then
      var rest := BareToken(args[1..]);
      if rest.Some? then Some([args[0]] + rest.value) else None
    else if args[0] as int < 0x80 then Some("")
    else None
  }

  lemma {:induction false} BytesStart(s: string)
    requires s != ""
    ensures |Bytes(s)| == |Utf8(s[0])| + |Bytes(s[1..])|
    ensures forall k :: 0 <= k < |Utf8(s[0])| ==> Bytes(s)[k] == Utf8(s[0])[k]
    ensures forall k :: |Utf8(s[0])| <= k < |Bytes(s)| ==> Bytes(s)[k] == Bytes(s[1..])[k - |Utf8(s[0])|]
  {
    hide Utf8;
    assert Bytes(s) == Utf8(s[0]) + Bytes(s[1..]);
  }

  ghost predicate FirstStop(bs: seq<nat>, end: nat) {
    && end <= |bs|
    && (forall k :: 0 <= k < end ==> !IsStopByte(bs[k]))
    && (end < |bs| ==> IsStopByte(bs[end]))
  }

  /** Slicing at the first stop byte gives the bare token, and panics exactly when that does not exist. */
  lemma {:induction false} SliceAtStop(args: string, end: nat)
    requires FirstStop(Bytes(args), end)
    ensures SliceTo(args, end) == BareToken(args)
  {
    hide Utf8;
    if args != "" {
      BytesStart(args);
      var n := |Utf8(args[0])|;
      if HasStopByte(args[0]) {
        var i :| 0 <= i < n && IsStopByte(Utf8(args[0])[i]);
        assert end <= i;
        assert IsStopByte(Utf8(args[0])[end]);
        if end == 0 && n > 1 {
          LeadIsNoStop(args[0]);
        }
      } else {
        assert forall k :: 0 <= k < n ==> !IsStopByte(Bytes(args)[k]);
        assert end >= n;
        forall k | 0 <= k < end - n
          ensures !IsStopByte(Bytes(args[1..])[k])
        {
          assert Bytes(args)[k + n] == Bytes(args[1..])[k];
        }
        SliceAtStop(args[1..], end - n);
      }
    }
  }

  lemma LeadIsNoStop(c: char)
    requires |Utf8(c)| > 1
    ensures !IsStopByte(Utf8(c)[0])
  {
  }

  /** The fallback of `extract_first_path_from_args`, which looks at single bytes. */
  method ReadBareToken(args: string) returns (token: Option<string>)
    ensures token == BareToken(args)
  {
    var bytes := Bytes(args);
    var end := 0;
    while end < |bytes| && !IsStopByte(bytes[end])
      invariant end <= |bytes|
      invariant forall k :: 0 <= k < end ==> !IsStopByte(bytes[k])
    {
      end := end + 1;
    }
    SliceAtStop(args, end);
    token := SliceTo(args, end);
  }

  // ----- The scan -----

  /** What a line contributes. `Panics` stands for the slice that is not on a character boundary. */
  datatype Extract = NoPath | Path(path: string) | Panics

  function MarkedArgs(trimmed: string, markers: seq<string>): Option<string> {
    if markers == [] then None
    else if markers[0] <= trimmed then Some(trimmed[|markers[0]|..])
    else MarkedArgs(trimmed, markers[1..])
  }

  /** The path on a line: the quoted text when it looks like a path, else the bare token when it does. */
  function PathOn(line: string): (r: Extract)
    ensures r.Path? ==> LooksLikePath(r.path)
  {
    var args := MarkedArgs(TrimStart(line), FILE_TOOL_MARKERS);
    if args.None? then NoPath
    else
      var quoted := Quoted(args.value);
      if quoted.Some? && LooksLikePath(quoted.value) then Path(quoted.value)
      else
        var token := BareToken(args.value);
        if token.None? then Panics
        else if LooksLikePath(token.value) then Path(token.value)
        else NoPath
  }

  method ExtractPath(line: string) returns (r: Extract)
    ensures r == PathOn(line)
  {
    hide LooksLikePath, BareToken;
    var args := MarkedArgs(TrimStart(line), FILE_TOOL_MARKERS);
    if args.None? {
      return NoPath;
    }
    var quoted := Quoted(args.value);
    if quoted.Some? && LooksLikePath(quoted.value) {
      return Path(quoted.value);
    }
    var token := ReadBareToken(args.value);
    if token.None? {
      return Panics;
    }
    r := if LooksLikePath(token.value) then Path(token.value) else NoPath;
  }

  // ----- What a line contributes, said without the case split -----

  /** The line is a tool call with these arguments. */
  ghost predicate CallsWith(line: string, args: string) {
    exists m :: m in FILE_TOOL_MARKERS && TrimStart(line) == m + args
  }

  /** The double quotes at `i` and `j` are the first two. */
  ghost predicate QuotesAt(args: string, i: nat, j: nat) {
    i < j < |args| && args[i] == '"' == args[j] && '"' !in args[..i] && '"' !in args[i + 1..j]
  }

  /** The text between the first two double quotes is `q`. */
  ghost predicate QuotesFirst(args: string, q: string) {
    exists i: nat, j: nat :: QuotesAt(args, i, j) && q == args[i + 1..j]
  }

  /** `token` is the longest prefix without a stop byte. */
  ghost predicate BarePrefix(args: string, token: string) {
    && token <= args
    && (forall i :: 0 <= i < |token| ==> !HasStopByte(token[i]))
    && (|token| < |args| ==> HasStopByte(args[|token|]))
  }

  ghost predicate NoQuotedPath(args: string) {
    forall q :: QuotesFirst(args, q) ==> !LooksLikePath(q)
  }

  lemma MarkersDiffer(m: string, n: string, a: string, b: string)
    requires m in FILE_TOOL_MARKERS && n in FILE_TOOL_MARKERS && m + a == n + b
    ensures m == n
  {
    assert (m + a)[2] == m[2] && (n + b)[2] == n[2];
  }

  lemma {:induction false} MarkedIsFirst(trimmed: string, markers: seq<string>)
    ensures var args := MarkedArgs(trimmed, markers);
            if args.Some? then exists m :: m in markers && trimmed == m + args.value
            else forall m :: m in markers ==> !(m <= trimmed)
  {
    if markers != [] && !(markers[0] <= trimmed) {
      MarkedIsFirst(trimmed, markers[1..]);
      assert markers == [markers[0]] + markers[1..];
    } else if markers != [] {
      assert trimmed == markers[0] + trimmed[|markers[0]|..];
    }
  }

  lemma CallIsMarked(line: string, args: string)
    ensures CallsWith(line, args) <==> MarkedArgs(TrimStart(line), FILE_TOOL_MARKERS) == Some(args)
  {
    var t := TrimStart(line);
    MarkedIsFirst(t, FILE_TOOL_MARKERS);
    if CallsWith(line, args) {
      var m :| m in FILE_TOOL_MARKERS && t == m + args;
      assert m <= t;
      var found := MarkedArgs(t, FILE_TOOL_MARKERS).value;
      var n :| n in FILE_TOOL_MARKERS && t == n + found;
      MarkersDiffer(m, n, args, found);
      assert args == t[|m|..] == found;
    }
  }

  lemma QuotedAt(args: string, i: nat, j: nat)
    requires QuotesAt(args, i, j)
    ensures Quoted(args) == Some(args[i + 1..j])
  {
    FirstIsFound(args, '"', i);
    var rest, n := args[i + 1..], j - i - 1;
    assert rest[n] == args[j];
    assert rest[..n] == args[i + 1..j];
    FirstIsFound(rest, '"', n);
  }

  lemma QuotedSplits(args: string) returns (i: nat, j: nat)
    requires Quoted(args).Some?
    ensures QuotesAt(args, i, j)
  {
    i := Find(args, '"').value;
    var rest := args[i + 1..];
    var n := Find(rest, '"').value;
    j := i + 1 + n;
    assert rest[n] == args[j];
    assert rest[..n] == args[i + 1..j];
  }

  lemma QuotedIsFirst(args: string, q: string)
    ensures QuotesFirst(args, q) <==> Quoted(args) == Some(q)
  {
    hide Quoted;
    if QuotesFirst(args, q) {
      var i: nat, j: nat :| QuotesAt(args, i, j) && q == args[i + 1..j];
      QuotedAt(args, i, j);
    }
    if Quoted(args) == Some(q) {
      var i, j := QuotedSplits(args);
      QuotedAt(args, i, j);
    }
  }

  lemma {:induction false} BareTokenIs(args: string, token: string)
    requires BarePrefix(args, token)
    ensures BareToken(args) == if |token| < |args| && args[|token|] as int >= 0x80 then None else Some(token)
  {
    hide HasStopByte;
    if token != "" {
      assert args[0] == token[0];
      BareTokenIs(args[1..], token[1..]);
      assert token == [token[0]] + token[1..];
    }
  }

  lemma {:induction false} SomeBarePrefix(args: string) returns (token: string)
    ensures BarePrefix(args, token)
  {
    hide HasStopByte;
    token := "";
    if args != "" && !HasStopByte(args[0]) {
      var rest := SomeBarePrefix(args[1..]);
      token := [args[0]] + rest;
    }
  }

  /** A line contributes a path exactly when it is a tool call, and the path is the quoted argument when that looks
      like a path, or else the bare one, which must then end before an ASCII character. */
  lemma PathOnIff(line: string, p: string)
    ensures PathOn(line) == Path(p) <==>
              && LooksLikePath(p)
              && exists args :: CallsWith(line, args) &&
                   (|| QuotesFirst(args, p)
                    || (NoQuotedPath(args) && BarePrefix(args, p) && (|p| < |args| ==> args[|p|] as int < 0x80)))
  {
    hide LooksLikePath, BareToken, BarePrefix, QuotesFirst, Quoted, CallsWith;
    if args :| CallsWith(line, args) {
      CallIsMarked(line, args);
      LineMeans(args, p);
      forall other | CallsWith(line, other)
        ensures other == args
      {
        CallIsMarked(line, other);
      }
    } else if PathOn(line) == Path(p) {
      CallIsMarked(line, MarkedArgs(TrimStart(line), FILE_TOOL_MARKERS).value);
    }
  }

  lemma LineMeans(args: string, p: string)
    ensures NoQuotedPath(args) <==> !(Quoted(args).Some? && LooksLikePath(Quoted(args).value))
    ensures BarePrefix(args, p) && (|p| < |args| ==> args[|p|] as int < 0x80) <==> BareToken(args) == Some(p)
    ensures QuotesFirst(args, p) <==> Quoted(args) == Some(p)
  {
    hide LooksLikePath, BareToken, BarePrefix, QuotesFirst, Quoted;
    forall q
      ensures QuotesFirst(args, q) <==> Quoted(args) == Some(q)
    {
      QuotedIsFirst(args, q);
    }
    var token := SomeBarePrefix(args);
    BareTokenIs(args, token);
    if BarePrefix(args, p) {
      BareTokenIs(args, p);
      OneBarePrefix(args, token, p);
    }
    if Quoted(args).Some? {
      assert QuotesFirst(args, Quoted(args).value);
    }
  }

  lemma {:induction false} OneBarePrefix(args: string, a: string, b: string)
    requires BarePrefix(args, a) && BarePrefix(args, b)
    ensures a == b
  {
    hide HasStopByte;
    if args == "" || HasStopByte(args[0]) {
      assert a == "" && b == "";
    } else {
      assert a == [args[0]] + a[1..] && b == [args[0]] + b[1..];
      OneBarePrefix(args[1..], a[1..], b[1..]);
    }
  }

  /** The bare token cannot be read exactly when the first character with a stop byte is not ASCII. */
  lemma BareTokenPanicsIff(args: string)
    ensures BareToken(args).None? <==>
              exists i :: 0 <= i < |args| && BarePrefix(args, args[..i]) && args[i] as int >= 0x80
  {
    hide BareToken, BarePrefix;
    var token := SomeBarePrefix(args);
    BareTokenIs(args, token);
    PrefixLength(args, token);
    forall i | 0 <= i < |args| && BarePrefix(args, args[..i])
      ensures i == |token|
    {
      OneBarePrefix(args, token, args[..i]);
    }
  }

  /** A line makes the scan panic exactly when it is a tool call without a quoted path, and the first character with
      a stop byte is not ASCII: the slice ends inside that character. */
  lemma LinePanicsIff(line: string)
    ensures PathOn(line).Panics? <==>
              exists args, i :: CallsWith(line, args) && NoQuotedPath(args) && 0 <= i < |args|
                                && BarePrefix(args, args[..i]) && args[i] as int >= 0x80
  {
    hide LooksLikePath, BareToken, BarePrefix, QuotesFirst, Quoted, CallsWith;
    if args :| CallsWith(line, args) {
      CallIsMarked(line, args);
      LineMeans(args, "");
      BareTokenPanicsIff(args);
      forall other | CallsWith(line, other)
        ensures other == args
      {
        CallIsMarked(line, other);
      }
    } else if PathOn(line).Panics? {
      CallIsMarked(line, MarkedArgs(TrimStart(line), FILE_TOOL_MARKERS).value);
    }
  }

  lemma PrefixLength(args: string, token: string)
    requires BarePrefix(args, token)
    ensures |token| <= |args| && args[..|token|] == token
  {
  }

  /** The lines of a tail from the bottom up. */
  function Reversed(lines: seq<string>): (r: seq<string>)
    ensures |r| == |lines| && forall i :: 0 <= i < |lines| ==> r[i] == lines[|lines| - 1 - i]
  {
    seq(|lines|, i requires 0 <= i < |lines| => lines[|lines| - 1 - i])
  }

  ghost function PathsOf(lines: seq<string>): seq<string> {
    if lines == [] then []
    else
      var last := PathOn(lines[|lines| - 1]);
      PathsOf(lines[..|lines| - 1]) + if last.Path? then [last.path] else []
  }

  /** The items of `s` in order of first occurrence. */
  ghost function Dedup(s: seq<string>): seq<string> {
    if s == [] then []
    else
      var before, last := Dedup(s[..|s| - 1]), s[|s| - 1];
      if last in before then before else before + [last]
  }

  /** No duplicates, the same items, and the order of first occurrence. */
  lemma {:induction false} DedupKeepsFirsts(s: seq<string>)
    ensures forall i, j :: 0 <= i < j < |Dedup(s)| ==> Dedup(s)[i] != Dedup(s)[j]
    ensures forall x :: x in Dedup(s) <==> x in s
    ensures forall i, j, k :: 0 <= i < j < |Dedup(s)| && 0 <= k < |s| && s[k] == Dedup(s)[j] ==> Dedup(s)[i] in s[..k]
  {
    if s != [] {
      var init, last := s[..|s| - 1], s[|s| - 1];
      DedupKeepsFirsts(init);
      assert s == init + [last];
      forall i, j, k | 0 <= i < j < |Dedup(s)| && 0 <= k < |s| && s[k] == Dedup(s)[j]
        ensures Dedup(s)[i] in s[..k]
      {
        if k < |init| {
          assert s[k] == init[k] && init[..k] == s[..k];
        } else {
          assert s[..k] == init;
          assert Dedup(s)[i] == Dedup(init)[i];
        }
      }
    }
  }

  lemma {:induction false} DedupGrows(s: seq<string>, n: nat)
    requires n <= |s|
    ensures Dedup(s[..n]) <= Dedup(s)
  {
    if n == |s| {
      assert s[..n] == s;
    } else {
      DedupGrows(s[..|s| - 1], n);
      assert s[..|s| - 1][..n] == s[..n];
    }
  }

  lemma {:induction false} PathsGrow(lines: seq<string>, n: nat)
    requires n <= |lines|
    ensures PathsOf(lines[..n]) <= PathsOf(lines)
  {
    if n == |lines| {
      assert lines[..n] == lines;
    } else {
      PathsGrow(lines[..|lines| - 1], n);
      assert lines[..|lines| - 1][..n] == lines[..n];
    }
  }

  ghost function DistinctPaths(lines: seq<string>): seq<string> {
    Dedup(PathsOf(lines))
  }

  lemma DistinctPathsGrow(lines: seq<string>, n: nat)
    requires n <= |lines|
    ensures DistinctPaths(lines[..n]) <= DistinctPaths(lines)
  {
    var few, all := PathsOf(lines[..n]), PathsOf(lines);
    PathsGrow(lines, n);
    DedupGrows(all, |few|);
    assert all[..|few|] == few;
  }

  /** The lines before the first one that panics. */
  ghost function BeforePanic(lines: seq<string>): (r: seq<string>)
    ensures r <= lines && (|r| < |lines| ==> PathOn(lines[|r|]).Panics?)
    ensures forall l :: l in r ==> !PathOn(l).Panics?
  {
    if lines == [] || PathOn(lines[0]).Panics? then []
    else
      assert lines == [lines[0]] + lines[1..];
      [lines[0]] + BeforePanic(lines[1..])
  }

  lemma BeforePanicIs(lines: seq<string>, n: nat)
    requires n <= |lines| && forall i :: 0 <= i < n ==> !PathOn(lines[i]).Panics?
    ensures n <= |BeforePanic(lines)|
    ensures (n == |lines| || PathOn(lines[n]).Panics?) ==> BeforePanic(lines) == lines[..n]
  {
    var r := BeforePanic(lines);
    assert |r| < |lines| ==> PathOn(lines[|r|]).Panics?;
    assert forall k :: 0 <= k < |r| ==> r[k] in r && r[k] == lines[k];
  }

  lemma EarlyBreak(lines: seq<string>, n: nat, out: seq<string>)
    requires n <= |lines| && forall i :: 0 <= i < n ==> !PathOn(lines[i]).Panics?
    requires out == DistinctPaths(lines[..n])
    ensures out <= DistinctPaths(BeforePanic(lines))
  {
    BeforePanicIs(lines, n);
    DistinctPathsGrow(BeforePanic(lines), n);
    assert BeforePanic(lines)[..n] == lines[..n];
  }

  /** The first eight distinct paths of the reversed lines; nothing when a line panics before the eighth is found. */
  ghost function ActiveFilesOf(lines: seq<string>): Option<seq<string>> {
    var rev := Reversed(lines);
    var paths := DistinctPaths(BeforePanic(rev));
    if |paths| >= MAX_ACTIVE_FILES then Some(paths[..MAX_ACTIVE_FILES])
    else if BeforePanic(rev) == rev then Some(paths)
    else None
  }

  /** The scan has read the first `n` of the reversed lines and found `out`. */
  ghost predicate Scanned(rev: seq<string>, n: nat, out: seq<string>) {
    && n <= |rev|
    && (forall j :: 0 <= j < n ==> !PathOn(rev[j]).Panics?)
    && out == DistinctPaths(rev[..n])
  }

  lemma ScanEnds(lines: seq<string>, n: nat, out: seq<string>)
    requires Scanned(Reversed(lines), n, out) && |out| <= MAX_ACTIVE_FILES
    ensures |out| == MAX_ACTIVE_FILES || n == |lines| ==> ActiveFilesOf(lines) == Some(out)
    ensures |out| < MAX_ACTIVE_FILES && n < |lines| && PathOn(Reversed(lines)[n]).Panics? ==>
              ActiveFilesOf(lines) == None
  {
    hide PathOn, DistinctPaths, BeforePanic, Reversed;
    var rev := Reversed(lines);
    BeforePanicIs(rev, n);
    EarlyBreak(rev, n, out);
    assert |out| == MAX_ACTIVE_FILES ==> out == DistinctPaths(BeforePanic(rev))[..MAX_ACTIVE_FILES];
    if n == |lines| {
      assert rev[..n] == rev;
    } else if PathOn(rev[n]).Panics? {
      assert |BeforePanic(rev)| == n;
    }
  }

  lemma ScanGrows(rev: seq<string>, n: nat, out: seq<string>)
    requires Scanned(rev, n, out) && n < |rev| && !PathOn(rev[n]).Panics?
    ensures Scanned(rev, n + 1,
                    if PathOn(rev[n]).Path? && PathOn(rev[n]).path !in out then out + [PathOn(rev[n]).path] else out)
  {
    hide PathOn, Dedup;
    var found, seen := PathOn(rev[n]), PathsOf(rev[..n]);
    assert rev[..n + 1][..n] == rev[..n];
    if found.Path? {
      DedupStep(seen, found.path);
    } else {
      assert seen + [] == seen;
    }
  }

  lemma NothingScanned(rev: seq<string>)
    ensures Scanned(rev, 0, [])
  {
    assert rev[..0] == [];
  }

  /** `parse_active_files`: the bottom-up scan with early break; no result stands for the panic. */
  method ParseActiveFiles(lines: seq<string>) returns (r: Option<seq<string>>)
    ensures r == ActiveFilesOf(lines)
  {
    hide PathOn, Scanned, ActiveFilesOf;
    var out: seq<string> := [];
    NothingScanned(Reversed(lines));
    for i := 0 to |lines|
      invariant Scanned(Reversed(lines), i, out) && |out| < MAX_ACTIVE_FILES
    {
      var found := ExtractPath(lines[|lines| - 1 - i]);
      if found.Panics? {
        ScanEnds(lines, i, out);
        return None;
      }
      ScanGrows(Reversed(lines), i, out);
      if found.Path? && found.path !in out {
        out := out + [found.path];
        if |out| >= MAX_ACTIVE_FILES {
          ScanEnds(lines, i + 1, out);
          return Some(out);
        }
      }
    }
    ScanEnds(lines, |lines|, out);
    r := Some(out);
  }

  /** Such a tail exists: one tool call with an unquoted file name that starts with U+00E0, whose second byte
      is 0xA0. */
  lemma AccentedNamePanics()
    ensures var line := "\U{25CF} Edit(\U{E0}.rs)";
            PathOn(line).Panics? && ActiveFilesOf([line]) == None
  {
    hide PathOn, ActiveFilesOf, LooksLikePath;
    var line, args := "\U{25CF} Edit(\U{E0}.rs)", "\U{E0}.rs)";
    assert Utf8(args[0])[1] == 0xA0;
    assert CallsWith(line, args) by {
      assert !IsSpace(line[0]);
      assert FILE_TOOL_MARKERS[0] in FILE_TOOL_MARKERS && line == FILE_TOOL_MARKERS[0] + args;
    }
    assert BarePrefix(args, args[..0]);
    NoQuotes(args);
    LinePanicsIff(line);
    NothingScanned(Reversed([line]));
    assert Reversed([line])[0] == line;
    ScanEnds([line], 0, []);
  }

  lemma NoQuotes(args: string)
    requires '"' !in args
    ensures NoQuotedPath(args)
  {
  }

  lemma DedupStep(s: seq<string>, x: string)
    ensures Dedup(s + [x]) == if x in Dedup(s) then Dedup(s) else Dedup(s) + [x]
  {
    assert (s + [x])[..|s|] == s;
  }

  /** Every reported entry is a path accepted by the path test, on some line of the tail. */
  lemma {:induction false} PathsLookLikePaths(lines: seq<string>)
    ensures forall p :: p in PathsOf(lines) ==> LooksLikePath(p)
    ensures forall p :: p in PathsOf(lines) ==> exists i :: 0 <= i < |lines| && PathOn(lines[i]) == Path(p)
  {
    hide LooksLikePath;
    if lines != [] {
      var init := lines[..|lines| - 1];
      PathsLookLikePaths(init);
      forall p | p in PathsOf(lines)
        ensures exists i :: 0 <= i < |lines| && PathOn(lines[i]) == Path(p)
      {
        if p in PathsOf(init) {
          var i :| 0 <= i < |init| && PathOn(init[i]) == Path(p);
          assert PathOn(lines[i]) == Path(p);
        } else {
          assert PathOn(lines[|lines| - 1]) == Path(p);
        }
      }
    }
  }

  // ----- The tests in terms of concatenation and code points -----

  function ToolMarker(name: string): string {
    "\U{25CF} " + name + "("
  }

  lemma MarkersAre()
    ensures FILE_TOOL_MARKERS == [ToolMarker("Edit"), ToolMarker("Write"), ToolMarker("MultiEdit"),
                                  ToolMarker("Update"), ToolMarker("NotebookEdit")]
  {
    assert "\U{25CF} " + "Edit" + "(" == "\U{25CF} Edit(" && "\U{25CF} " + "Write" + "(" == "\U{25CF} Write(";
    assert "\U{25CF} " + "MultiEdit" + "(" == "\U{25CF} MultiEdit(";
    assert "\U{25CF} " + "Update" + "(" == "\U{25CF} Update(";
    assert "\U{25CF} " + "NotebookEdit" + "(" == "\U{25CF} NotebookEdit(";
  }

  /** The tools whose calls count. */
  lemma CallsWithIff(line: string, args: string)
    ensures CallsWith(line, args) <==>
              exists name :: name in ["Edit", "Write", "MultiEdit", "Update", "NotebookEdit"]
                             && TrimStart(line) == ToolMarker(name) + args
  {
    hide TrimStart, ToolMarker, FILE_TOOL_MARKERS;
    MarkersAre();
    var names := ["Edit", "Write", "MultiEdit", "Update", "NotebookEdit"];
    assert forall i :: 0 <= i < 5 ==> names[i] in names && FILE_TOOL_MARKERS[i] == ToolMarker(names[i]);
  }

  lemma SixBitGroups(n: nat)
    ensures n / 0x1000 == n / 0x40 / 0x40 && n / 0x4_0000 == n / 0x1000 / 0x40
    ensures n == n / 0x40 * 0x40 + n % 0x40
  {
  }

  /** The bytes of a character hold its code point: six bits in every byte but the first. */
  lemma Utf8Holds(c: char)
    ensures var bs, n := Utf8(c), c as int;
            && (n < 0x80 ==> bs == [n])
            && (0x80 <= n < 0x800 ==> |bs| == 2 && n == (bs[0] - 192) * 64 + (bs[1] - 128))
            && (0x800 <= n < 0x1_0000 ==>
                  |bs| == 3 && n == ((bs[0] - 224) * 64 + (bs[1] - 128)) * 64 + (bs[2] - 128))
            && (0x1_0000 <= n ==>
                  |bs| == 4 && n == (((bs[0] - 240) * 64 + (bs[1] - 128)) * 64 + (bs[2] - 128)) * 64 + (bs[3] - 128))
            && forall i :: 1 <= i < |bs| ==> 128 <= bs[i] < 192
  {
    var n := c as int;
    SixBitGroups(n);
    SixBitGroups(n / 0x40);
    SixBitGroups(n / 0x1000);
  }

  lemma StopBytesAre(b: nat)
    ensures IsStopByte(b) <==> b in {9, 10, 11, 12, 13, 32, 41, 44, 133, 160}
  {
  }

  /** An ASCII character ends a bare token when it is a comma, a closing parenthesis or white space. */
  lemma AsciiStops(c: char)
    requires c as int < 0x80
    ensures HasStopByte(c) <==> c == ',' || c == ')' || IsSpace(c)
  {
    assert Utf8(c)[0] == c as int;
  }

  /** Some text ends in a dot and one to eight ASCII letters or digits. */
  ghost predicate EndsInExtension(t: string) {
    exists stem, ext :: t == stem + "." + ext && 1 <= |ext| <= 8
                        && forall k :: 0 <= k < |ext| ==>
                             || 48 <= ext[k] as int <= 57 || 65 <= ext[k] as int <= 90 || 97 <= ext[k] as int <= 122
  }

  /** Between the white space, a path is two bytes long or more, does not start with a hyphen, holds no equals sign,
      and has a slash or an extension. */
  lemma LooksLikePathIff(a: string, t: string, b: string)
    requires Tight(t) && Blank(a) && Blank(b)
    ensures LooksLikePath(a + t + b) <==>
              && (|t| >= 2 || (|t| == 1 && t[0] as int >= 128))
              && t[0] != '-' && '=' !in t && ('/' in t || EndsInExtension(t))
  {
    hide Trim, Bytes;
    TrimIs(a, t, b);
    BytesLength(t);
    ExtensionIff(t);
  }

  lemma BytesLength(t: string)
    ensures |Bytes(t)| >= 2 <==> |t| >= 2 || (|t| == 1 && t[0] as int >= 128)
  {
    hide Utf8;
    if t != "" {
      BytesStart(t);
      if |t| > 1 {
        BytesStart(t[1..]);
      }
    }
  }

  lemma ExtensionIff(t: string)
    ensures HasExtension(t) <==> EndsInExtension(t)
  {
    if i :| 0 <= i < |t| && t[i] == '.' && IsExtension(t[i + 1..]) {
      assert t == t[..i] + "." + t[i + 1..];
    }
    if EndsInExtension(t) {
      var stem, ext :| t == stem + "." + ext && 1 <= |ext| <= 8
                       && forall k :: 0 <= k < |ext| ==>
                            || 48 <= ext[k] as int <= 57 || 65 <= ext[k] as int <= 90 || 97 <= ext[k] as int <= 122;
      assert t[|stem|] == '.' && t[|stem| + 1..] == ext;
    }
  }

  /** At most eight paths are reported, and all there are when they are fewer. */
  lemma AtMostEight(lines: seq<string>)
    ensures var r := ActiveFilesOf(lines);
            && (r.Some? ==> |r.value| <= 8)
            && (r.Some? && |r.value| < 8 ==> r.value == DistinctPaths(Reversed(lines)))
  {
    hide DistinctPaths, Reversed;
  }
}
