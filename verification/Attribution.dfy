/** The gates that decide whether a provider's side file may be attributed to a
    pane, on top of the identity walk. */
module Attribution {
  import opened Wrappers
  import opened Text
  import opened ProcessMemory

  /** `Path::file_name`: the last component that is neither empty nor `.`, unless it is `..`. */
  function FileName(parts: seq<string>): Option<string> {
    if parts == [] then None
    else
      var last := parts[|parts| - 1];
      if last == "" || last == "." then FileName(parts[..|parts| - 1])
      else if last == ".." then None
      else Some(last)
  }

  predicate PathBasenameContains(path: string, needle: string) {
    var name := FileName(SplitOn(path, '/'));
    Contains(Lower(if name.Some? then name.value else path), needle)
  }

  /** `cli_process_basename_contains`: the command name is the needle, or some argument's or the
      executable's base name contains it. */
  predicate NamedLike(comm: string, argv: seq<string>, exe: Option<string>, needle: string) {
    || Lower(comm) == Lower(needle)
    || (exists i :: 0 <= i < |argv| && PathBasenameContains(argv[i], needle))
    || (exe.Some? &&
        var name := FileName(SplitOn(exe.value, '/'));
        name.Some? && Contains(Lower(name.value), needle))
  }

  /** `pane_pid_is_cli` */
  predicate PanePidIsCli(t: Table, pid: Pid, kind: string) {
    t(pid).comm.Some? && Lower(t(pid).comm.value) == Lower(kind)
  }

  /** A process that can be described and is named like the needle. */
  ghost predicate Evidence(t: Table, p: Pid, needle: string) {
    && t(p).comm.Some?
    && t(p).argv.Some?
    && NamedLike(t(p).comm.value, t(p).argv.value, t(p).exe, needle)
  }

  /** What every gate asks of a known pane pid. */
  ghost predicate Confirmed(t: Table, pid: Pid, needle: string) {
    || PanePidIsCli(t, pid, needle)
    || exists p :: Identity(t, pid, p) && Evidence(t, p, needle)
  }

  method ProcessConfirmed(t: Table, pid: Pid, needle: string) returns (ok: bool)
    ensures ok <==> Confirmed(t, pid, needle)
  {
    hide Seen, Frontier;
    if PanePidIsCli(t, pid, needle) {
      return true;
    }
    var desc := ReadDescendantCliProcess(t, pid);
    match desc
    case None =>
      ok := false;
      forall p | Identity(t, pid, p)
        ensures !Evidence(t, p, needle)
      {
        SomeIdentity(t, pid, p);
      }
    case Some(d) =>
      SomeIdentity(t, pid, d.pid);
      ok := NamedLike(d.comm, d.argv, d.exe, needle);
  }

  /** `claude_sidefile_process_confirmed` */
  method ClaudeConfirmed(t: Table, panePid: Option<Pid>) returns (ok: bool)
    ensures ok <==> panePid.None? || Confirmed(t, panePid.value, "claude")
  {
    if panePid.Some? {
      ok := ProcessConfirmed(t, panePid.value, "claude");
    } else {
      ok := true;
    }
  }

  /** `codex_rollout_process_confirmed` */
  method CodexConfirmed(t: Table, panePid: Option<Pid>) returns (ok: bool)
    ensures ok <==> panePid.None? || Confirmed(t, panePid.value, "codex")
  {
    if panePid.Some? {
      ok := ProcessConfirmed(t, panePid.value, "codex");
    } else {
      ok := true;
    }
  }

  /** `agy_process_confirmed`: the one gate that fails closed when the pane pid is missing. */
  method AgyConfirmed(t: Table, panePid: Option<Pid>) returns (ok: bool)
    ensures ok <==> panePid.Some? && Confirmed(t, panePid.value, "agy")
  {
    if panePid.Some? {
      ok := ProcessConfirmed(t, panePid.value, "agy");
    } else {
      ok := false;
    }
  }

  /** A confirmed pane has a process named like the needle at most four steps below
      the pane pid, or the pane pid itself is one. */
  lemma ConfirmedHasEvidence(t: Table, pid: Pid, needle: string)
    requires Confirmed(t, pid, needle)
    ensures exists p :: Within(t, pid, p, 4) && t(p).comm.Some? &&
                        (Evidence(t, p, needle) || Lower(t(p).comm.value) == Lower(needle))
  {
    hide Seen, Frontier;
    if PanePidIsCli(t, pid, needle) {
      assert PathOf(t, pid, pid, [pid]);
      assert Within(t, pid, pid, 4);
    } else {
      var p :| Identity(t, pid, p) && Evidence(t, p, needle);
      SomeIdentity(t, pid, p);
    }
  }

  /** The misattribution guard: a known CLI `q` that is strictly nearer to the pane than every known
      CLI named like the needle vetoes the attribution, unless the pane pid is the CLI. */
  lemma NearerCliVetoes(t: Table, pid: Pid, q: Pid, d: nat, needle: string)
    requires !PanePidIsCli(t, pid, needle)
    requires q != pid && Cli(t, q) && d <= 4 && Within(t, pid, q, d)
    requires forall p :: Cli(t, p) && Evidence(t, p, needle) ==> !Within(t, pid, p, d)
    ensures !Confirmed(t, pid, needle)
  {
    hide Seen, Frontier;
    forall p | Identity(t, pid, p)
      ensures !Evidence(t, p, needle)
    {
      var e := IdentityIsNearest(t, pid, p);
      var path :| PathOf(t, pid, q, path) && |path| <= d + 1;
      assert Within(t, pid, q, 4);
      if e <= d {
        var path' :| PathOf(t, pid, p, path') && |path'| <= e + 1;
        assert Within(t, pid, p, d);
      }
    }
  }

  // ----- The name tests -----

  /** Something a path component can be called. */
  predicate IsName(base: string) {
    '/' !in base && base !in ["", ".", ".."]
  }

  /** Slashes and lone dots at the end of a path. */
  function Trailing(dots: seq<bool>): string {
    if dots == [] then "" else Trailing(dots[..|dots| - 1]) + if dots[|dots| - 1] then "/." else "/"
  }

  lemma SlashDot()
    ensures SplitOn("", '/') == [""] && SplitOn(".", '/') == ["."]
  {
    SplitOnAbsent("", '/');
    SplitOnAbsent(".", '/');
  }

  lemma {:induction false} TrailingIsDropped(path: string, dots: seq<bool>)
    ensures FileName(SplitOn(path + Trailing(dots), '/')) == FileName(SplitOn(path, '/'))
  {
    hide SplitOn;
    if dots == [] {
      assert path + "" == path;
    } else {
      var init, last := dots[..|dots| - 1], dots[|dots| - 1];
      TrailingIsDropped(path, init);
      var longer, end := path + Trailing(init), if last then "." else "";
      SlashDot();
      SplitOnConcat(longer, end, '/');
      assert path + Trailing(dots) == longer + ['/'] + end;
      assert (SplitOn(longer, '/') + [end])[..|SplitOn(longer, '/')|] == SplitOn(longer, '/');
    }
  }

  lemma LastPart(dir: Option<string>, base: string)
    requires '/' !in base
    ensures var parts := SplitOn(if dir.Some? then dir.value + "/" + base else base, '/'); parts[|parts| - 1] == base
  {
    SplitOnAbsent(base, '/');
    if dir.Some? {
      SplitOnConcat(dir.value, base, '/');
      assert dir.value + ['/'] + base == dir.value + "/" + base;
    }
  }

  /** The test looks at the last component only, whatever directory it is in and whatever slashes and dots follow. */
  lemma BasenameDecides(dir: Option<string>, base: string, dots: seq<bool>, needle: string)
    requires IsName(base) && NoCapitals(needle)
    ensures var path := (if dir.Some? then dir.value + "/" + base else base) + Trailing(dots);
            PathBasenameContains(path, needle) <==> Mentions(base, needle)
  {
    hide SplitOn, Mentions, NoCapitals;
    LastPart(dir, base);
    TrailingIsDropped(if dir.Some? then dir.value + "/" + base else base, dots);
    MentionsIff(base, needle);
  }

  /** A path that ends with `..`, or consists of slashes and dots, has no last component: all of it is searched. */
  lemma NamelessPathIsSearched(dir: Option<string>, base: string, dots: seq<bool>, needle: string)
    requires base == ".." || (dir.None? && base in ["", "."])
    requires NoCapitals(needle)
    ensures var path := (if dir.Some? then dir.value + "/" + base else base) + Trailing(dots);
            PathBasenameContains(path, needle) <==> Mentions(path, needle)
  {
    hide SplitOn, Mentions, NoCapitals;
    var start := if dir.Some? then dir.value + "/" + base else base;
    LastPart(dir, base);
    TrailingIsDropped(start, dots);
    SlashDot();
    MentionsIff(start + Trailing(dots), needle);
  }

  /** The executable counts by its last component, and not at all when it has none. */
  lemma ExecutableDecides(comm: string, exe: string, dir: Option<string>, base: string, dots: seq<bool>, needle: string)
    requires '/' !in base && NoCapitals(needle) && !Spells(comm, needle)
    requires exe == (if dir.Some? then dir.value + "/" + base else base) + Trailing(dots)
    requires IsName(base) || base == ".." || (dir.None? && base in ["", "."])
    ensures NamedLike(comm, [], Some(exe), needle) <==> IsName(base) && Mentions(base, needle)
  {
    hide SplitOn, Mentions;
    LastPart(dir, base);
    TrailingIsDropped(if dir.Some? then dir.value + "/" + base else base, dots);
    SlashDot();
    MentionsIff(base, needle);
    SpellsIff(comm, needle);
    LowerKeeps(needle);
  }

  lemma LowerKeeps(w: string)
    requires NoCapitals(w)
    ensures Lower(w) == w
  {
    assert forall i :: 0 <= i < |w| ==> Lower(w)[i] == w[i];
  }

  /** A process is named like the needle exactly by its command name, an argument or its executable. */
  lemma NamedLikeIff(comm: string, argv: seq<string>, exe: Option<string>, needle: string)
    requires NoCapitals(needle) && needle != ""
    ensures NamedLike(comm, argv, exe, needle) <==>
              || Spells(comm, needle)
              || (exists arg :: arg in argv && PathBasenameContains(arg, needle))
              || NamedLike("", [], exe, needle)
  {
    hide PathBasenameContains, FileName, SplitOn;
    SpellsIff(comm, needle);
    LowerKeeps(needle);
    assert |Lower("")| == 0;
    assert forall i :: 0 <= i < |argv| ==> argv[i] in argv;
  }

  /** The pane pid is the CLI exactly when its command name is that word, in whatever case. */
  lemma PanePidIsCliIff(t: Table, pid: Pid, kind: string)
    requires NoCapitals(kind)
    ensures PanePidIsCli(t, pid, kind) <==> t(pid).comm.Some? && Spells(t(pid).comm.value, kind)
  {
    if t(pid).comm.Some? {
      SpellsIff(t(pid).comm.value, kind);
    }
    LowerKeeps(kind);
  }

  /** A pane is confirmed exactly when its own process has the name, or its identity can be described and its name,
      an argument or its executable is like it. */
  lemma ConfirmedIff(t: Table, pid: Pid, needle: string)
    requires NoCapitals(needle)
    ensures Confirmed(t, pid, needle) <==>
              || (t(pid).comm.Some? && Spells(t(pid).comm.value, needle))
              || exists p :: Identity(t, pid, p) && t(p).comm.Some? && t(p).argv.Some?
                             && NamedLike(t(p).comm.value, t(p).argv.value, t(p).exe, needle)
  {
    hide Identity, NamedLike, Spells;
    PanePidIsCliIff(t, pid, needle);
  }

  // ----- A pane with a shell only -----

  /** A pane with one descendant, a shell. */
  const SHELL_PANE: Table :=
    pid =>
      Proc(Some("bash"), None, Some(["bash"]), None, if pid == 1 then [2] else [])

  lemma ShellIsReached()
    ensures Within(SHELL_PANE, 1, 2, 4)
  {
    var path := [1, 2];
    assert path[..1] == [1];
    assert IsPath(SHELL_PANE, [1]);
    assert PathOf(SHELL_PANE, 1, 2, path);
  }

  lemma OnlyShellIsReached(q: Pid, edges: nat)
    requires Within(SHELL_PANE, 1, q, edges)
    ensures q == 1 || q == 2
  {
    var path :| PathOf(SHELL_PANE, 1, q, path) && |path| <= edges + 1;
  }

  /** The shell is the identity of the pane, although it is no CLI, and it can be described. */
  lemma LoneShellIsIdentity()
    ensures Identity(SHELL_PANE, 1, 2) && !Cli(SHELL_PANE, 2) && SHELL_PANE(2).argv == Some(["bash"])
    ensures forall q :: Within(SHELL_PANE, 1, q, 4) ==> q == 1 || q == 2
  {
    hide Identity, Within, Descendants;
    forall q | Within(SHELL_PANE, 1, q, 4)
      ensures q == 1 || q == 2
    {
      OnlyShellIsReached(q, 4);
    }
    ShellIsReached();
    var p := IdentityExists(SHELL_PANE, 1, 2);
    SomeIdentity(SHELL_PANE, 1, p);
  }

  // ----- A server below a directory called like the CLI -----

  const SERVER_PANE: Table :=
    pid =>
      if pid == 2 then
        Proc(Some("node"), None, Some(["node", "/home/u/.claude/mcp/server.js"]), Some("/usr/bin/node"), [])
      else Proc(Some("bash"), None, Some(["bash"]), None, if pid == 1 then [2] else [])

  lemma NoLetterC(s: string)
    requires forall i :: 0 <= i < |s| ==> !IsLetter(s[i], 'c')
    ensures !Mentions(s, "claude")
  {
    if Mentions(s, "claude") {
      MentionsFirst(s, "claude");
    }
  }

  lemma ServerIsNotNamedLike()
    ensures !NamedLike("node", ["node", "/home/u/.claude/mcp/server.js"], Some("/usr/bin/node"), "claude")
  {
    hide PathBasenameContains, Mentions, Spells;
    NodeIsNotClaude();
    NoLetterC("node");
    NoLetterC("server.js");
    BasenameDecides(None, "node", [], "claude");
    assert "node" + Trailing([]) == "node";
    BasenameDecides(Some("/home/u/.claude/mcp"), "server.js", [], "claude");
    assert "/home/u/.claude/mcp" + "/" + "server.js" + Trailing([]) == "/home/u/.claude/mcp/server.js";
    assert "/usr/bin" + "/" + "node" + Trailing([]) == "/usr/bin/node";
    ExecutableDecides("node", "/usr/bin/node", Some("/usr/bin"), "node", [], "claude");
    NamedLikeIff("", [], Some("/usr/bin/node"), "claude");
    NamedLikeIff("node", ["node", "/home/u/.claude/mcp/server.js"], Some("/usr/bin/node"), "claude");
    NamedLikeIff("node", [], Some("/usr/bin/node"), "claude");
  }

  lemma NodeIsNotClaude()
    ensures !Spells("node", "claude") && !Spells("", "claude")
  {
  }

  lemma ServerIsIdentity()
    ensures forall p :: Identity(SERVER_PANE, 1, p) <==> p == 2
  {
    hide Identity, Within;
    ServerIsReached();
    ServerPaneHolds();
    var identity := IdentityExists(SERVER_PANE, 1, 2);
    forall p | Identity(SERVER_PANE, 1, p)
      ensures p == 2
    {
      SomeIdentity(SERVER_PANE, 1, p);
      OnlyServerIsReached(p, 4);
    }
  }

  /** A directory called like the CLI does not confirm a pane: the gate declines a server that runs below it. */
  lemma ServerPaneIsDeclined()
    ensures Identity(SERVER_PANE, 1, 2) && !Confirmed(SERVER_PANE, 1, "claude")
  {
    hide NamedLike, Identity, Spells, SERVER_PANE, Confirmed;
    ServerIsIdentity();
    ServerPaneHolds();
    ServerIsNotNamedLike();
    BashIsNotClaude();
    ConfirmedIff(SERVER_PANE, 1, "claude");
  }

  lemma ServerPaneHolds()
    ensures SERVER_PANE(1).comm == Some("bash") && SERVER_PANE(2).comm == Some("node")
    ensures SERVER_PANE(2).argv == Some(["node", "/home/u/.claude/mcp/server.js"])
    ensures SERVER_PANE(2).exe == Some("/usr/bin/node")
  {
  }

  lemma BashIsNotClaude()
    ensures !Spells("bash", "claude")
  {
  }

  lemma ServerIsReached()
    ensures Within(SERVER_PANE, 1, 2, 4)
  {
    var path := [1, 2];
    assert path[..1] == [1];
    assert IsPath(SERVER_PANE, [1]);
    assert PathOf(SERVER_PANE, 1, 2, path);
  }

  lemma OnlyServerIsReached(q: Pid, edges: nat)
    requires Within(SERVER_PANE, 1, q, edges)
    ensures q == 1 || q == 2
  {
    var path :| PathOf(SERVER_PANE, 1, q, path) && |path| <= edges + 1;
  }
}
