/** The two process-tree walks of the monitor: the memory walk, which reports
    the resident size of the most relevant process under a pane, and the identity
    walk, which picks the process that gives the pane its identity.

    `/proc` is held fixed during one call and is an arbitrary total table: a pid
    that cannot be read has no command name, no size, no argv and no children.
    Nothing is assumed about the child relation; it may be cyclic or shared. */
module ProcessMemory {
  import opened Wrappers

  type Pid = nat

  datatype Proc = Proc(
    comm: Option<string>,
    rssKb: Option<nat>,
    argv: Option<seq<string>>,
    exe: Option<string>,
    children: seq<Pid>)

  type Table = Pid -> Proc

  /** `MAX_DEPTH`: the walks expand frontiers 0 to 4. */
  const MAX_DEPTH: nat := 5

  const DEDICATED_CLI_COMMS: seq<string> := ["claude", "codex", "gemini", "agy", "qmonster"]
  const INTERPRETER_COMMS: seq<string> := ["node", "python", "python3"]

  predicate IsCliComm(comm: string) {
    comm in DEDICATED_CLI_COMMS || comm in INTERPRETER_COMMS
  }

  /** What the memory walk ranks: the tier first, then the resident size. */
  datatype Stats = Stats(rssKb: nat, tier: nat) {
    predicate Above(other: Stats) {
      tier > other.tier || (tier == other.tier && rssKb > other.rssKb)
    }
  }

  /** A pid has statistics when its status file holds a resident size. */
  function PidStats(t: Table, pid: Pid): Option<Stats> {
    match t(pid).rssKb
    case None => None
    case Some(rss) =>
      match t(pid).comm
      case Some(c) => Some(Stats(rss, if c in DEDICATED_CLI_COMMS then 2 else if c in INTERPRETER_COMMS then 1 else 0))
      case None => Some(Stats(rss, 0))
  }

  // ----- Reference notion: paths in the child relation -----

  /** `path` follows the child relation from its first pid to its last. */
  ghost predicate IsPath(t: Table, path: seq<Pid>) {
    && path != []
    && (|path| > 1 ==>
          && path[|path| - 1] in t(path[|path| - 2]).children
          && IsPath(t, path[..|path| - 1]))
  }

  ghost predicate PathOf(t: Table, root: Pid, pid: Pid, path: seq<Pid>) {
    IsPath(t, path) && path[0] == root && path[|path| - 1] == pid
  }

  /** `pid` can be reached from `root` in at most `edges` steps. */
  ghost predicate Within(t: Table, root: Pid, pid: Pid, edges: nat) {
    exists path :: PathOf(t, root, pid, path) && |path| <= edges + 1
  }

  /** The shortest path from `root` to `pid` has exactly `edges` steps. */
  ghost predicate AtDistance(t: Table, root: Pid, pid: Pid, edges: nat) {
    Within(t, root, pid, edges) && (edges > 0 ==> !Within(t, root, pid, edges - 1))
  }

  // ----- Frontiers -----

  /** The pids of `cs` outside `seen`, in order of first occurrence. */
  ghost function Fresh(cs: seq<Pid>, seen: seq<Pid>): seq<Pid> {
    if cs == [] then []
    else
      var before := Fresh(cs[..|cs| - 1], seen);
      var last := cs[|cs| - 1];
      if last in seen || last in before then before else before + [last]
  }

  /** Concatenated child lists, in frontier order. */
  ghost function AllChildren(t: Table, frontier: seq<Pid>): seq<Pid> {
    if frontier == [] then []
    else AllChildren(t, frontier[..|frontier| - 1]) + t(frontier[|frontier| - 1]).children
  }

  /** The frontier of round `depth`. */
  ghost function Frontier(t: Table, root: Pid, depth: nat): seq<Pid>
    decreases depth, 0
  {
    if depth == 0 then [root]
    else Fresh(AllChildren(t, Frontier(t, root, depth - 1)), Seen(t, root, depth - 1))
  }

  /** Frontiers 0 to `depth`, concatenated: breadth-first order. */
  ghost function Seen(t: Table, root: Pid, depth: nat): seq<Pid>
    decreases depth, 1
  {
    if depth == 0 then [root] else Seen(t, root, depth - 1) + Frontier(t, root, depth)
  }

  ghost predicate Distinct(s: seq<Pid>) {
    forall i, j :: 0 <= i < j < |s| ==> s[i] != s[j]
  }

  ghost predicate HasParentIn(t: Table, parents: seq<Pid>, c: Pid) {
    exists p :: p in parents && c in t(p).children
  }

  lemma {:induction false} FreshIsDedup(cs: seq<Pid>, seen: seq<Pid>)
    ensures forall p :: p in Fresh(cs, seen) <==> p in cs && p !in seen
    ensures Distinct(Fresh(cs, seen))
  {
    if cs != [] {
      FreshIsDedup(cs[..|cs| - 1], seen);
      assert cs == cs[..|cs| - 1] + [cs[|cs| - 1]];
    }
  }

  lemma {:induction false} AllChildrenElements(t: Table, frontier: seq<Pid>, c: Pid)
    ensures c in AllChildren(t, frontier) <==> HasParentIn(t, frontier, c)
  {
    if frontier != [] {
      AllChildrenElements(t, frontier[..|frontier| - 1], c);
      assert frontier == frontier[..|frontier| - 1] + [frontier[|frontier| - 1]];
    }
  }

  /** A frontier holds exactly the unseen children of the one before it. */
  lemma FrontierElements(t: Table, root: Pid, depth: nat, pid: Pid)
    requires depth > 0
    ensures pid in Frontier(t, root, depth)
       <==> pid !in Seen(t, root, depth - 1)
            && HasParentIn(t, Frontier(t, root, depth - 1), pid)
  {
    FreshIsDedup(AllChildren(t, Frontier(t, root, depth - 1)), Seen(t, root, depth - 1));
    AllChildrenElements(t, Frontier(t, root, depth - 1), pid);
  }

  lemma {:induction false} SeenGrows(t: Table, root: Pid, less: nat, more: nat)
    requires less <= more
    ensures Seen(t, root, less) <= Seen(t, root, more)
  {
    hide Fresh, AllChildren;
    if less < more {
      SeenGrows(t, root, less, more - 1);
    }
  }

  lemma {:induction false} SeenInFrontier(t: Table, root: Pid, depth: nat, pid: Pid) returns (d: nat)
    requires pid in Seen(t, root, depth)
    ensures d <= depth && pid in Frontier(t, root, d)
  {
    if depth == 0 || pid in Frontier(t, root, depth) {
      d := depth;
    } else {
      d := SeenInFrontier(t, root, depth - 1, pid);
    }
  }

  lemma ChildSeen(t: Table, root: Pid, depth: nat, pid: Pid, child: Pid)
    requires pid in Seen(t, root, depth) && child in t(pid).children
    ensures child in Seen(t, root, depth + 1)
  {
    hide Fresh, AllChildren;
    var d := SeenInFrontier(t, root, depth, pid);
    assert HasParentIn(t, Frontier(t, root, d), child);
    FrontierElements(t, root, d + 1, child);
    assert child in Seen(t, root, d + 1);
    SeenGrows(t, root, d + 1, depth + 1);
  }

  lemma ParentInFrontier(t: Table, root: Pid, depth: nat, pid: Pid) returns (p: Pid)
    requires depth > 0 && pid in Frontier(t, root, depth)
    ensures p in Seen(t, root, depth - 1) && pid in t(p).children
  {
    FrontierElements(t, root, depth, pid);
    p :| p in Frontier(t, root, depth - 1) && pid in t(p).children;
  }

  lemma PathExtends(t: Table, root: Pid, p: Pid, path: seq<Pid>, child: Pid)
    requires PathOf(t, root, p, path) && child in t(p).children
    ensures PathOf(t, root, child, path + [child])
  {
    assert (path + [child])[..|path|] == path;
  }

  lemma {:induction false} SeenHasPath(t: Table, root: Pid, depth: nat, pid: Pid) returns (path: seq<Pid>)
    requires pid in Seen(t, root, depth)
    ensures PathOf(t, root, pid, path) && |path| <= depth + 1
  {
    hide Fresh, AllChildren;
    if depth == 0 {
      path := [root];
    } else if pid in Seen(t, root, depth - 1) {
      path := SeenHasPath(t, root, depth - 1, pid);
    } else {
      var p := ParentInFrontier(t, root, depth, pid);
      var prefix := SeenHasPath(t, root, depth - 1, p);
      PathExtends(t, root, p, prefix, pid);
      path := prefix + [pid];
    }
  }

  lemma {:induction false} PathIsSeen(t: Table, root: Pid, path: seq<Pid>)
    requires IsPath(t, path) && path[0] == root
    ensures path[|path| - 1] in Seen(t, root, |path| - 1)
  {
    if |path| > 1 {
      PathIsSeen(t, root, path[..|path| - 1]);
      ChildSeen(t, root, |path| - 2, path[|path| - 2], path[|path| - 1]);
    }
  }

  /** After `depth` rounds the walk has seen exactly the pids at most `depth`
      steps away, whatever the child relation. */
  lemma SeenIsBall(t: Table, root: Pid, depth: nat, pid: Pid)
    ensures pid in Seen(t, root, depth) <==> Within(t, root, pid, depth)
  {
    if pid in Seen(t, root, depth) {
      var path := SeenHasPath(t, root, depth, pid);
    }
    if Within(t, root, pid, depth) {
      var path :| PathOf(t, root, pid, path) && |path| <= depth + 1;
      PathIsSeen(t, root, path);
      SeenGrows(t, root, |path| - 1, depth);
    }
  }

  /** Frontier number `depth` is exactly the set at shortest distance `depth`, each pid once. */
  lemma FrontierIsDistance(t: Table, root: Pid, depth: nat)
    ensures forall pid :: pid in Frontier(t, root, depth) <==> AtDistance(t, root, pid, depth)
    ensures Distinct(Frontier(t, root, depth))
  {
    hide Fresh, AllChildren;
    forall pid
      ensures pid in Frontier(t, root, depth) <==> AtDistance(t, root, pid, depth)
    {
      SeenIsBall(t, root, depth, pid);
      if depth > 0 {
        SeenIsBall(t, root, depth - 1, pid);
        FrontierElements(t, root, depth, pid);
      }
    }
    if depth > 0 {
      FreshIsDedup(AllChildren(t, Frontier(t, root, depth - 1)), Seen(t, root, depth - 1));
    }
  }

  lemma WalkStarts(t: Table, root: Pid)
    ensures Frontier(t, root, 0) == [root] && Seen(t, root, 0) == [root]
  {
  }

  /** One round of either walk. */
  lemma WalkGoesOn(t: Table, root: Pid, depth: nat)
    ensures Frontier(t, root, depth + 1) == Fresh(AllChildren(t, Frontier(t, root, depth)), Seen(t, root, depth))
    ensures Seen(t, root, depth + 1) == Seen(t, root, depth) + Frontier(t, root, depth + 1)
  {
  }

  lemma {:induction false} EmptyFrontierEndsWalk(t: Table, root: Pid, depth: nat, later: nat)
    requires depth <= later && Frontier(t, root, depth) == []
    ensures Frontier(t, root, later) == []
    ensures Seen(t, root, later) == Seen(t, root, depth)
  {
    if depth < later {
      EmptyFrontierEndsWalk(t, root, depth, later - 1);
    }
  }

  // ----- The memory walk -----

  /** `best` and `tier` are what the walk holds after ranking the pids of `order`:
      the top statistics above `(0, 0)`, or nothing when none is above. */
  ghost predicate Ranked(t: Table, order: seq<Pid>, best: Option<nat>, tier: nat) {
    && (best.None? ==> tier == 0)
    && (best.Some? ==> exists p :: p in order && PidStats(t, p) == Some(Stats(best.value, tier)))
    && (best.Some? ==> Stats(best.value, tier).Above(Stats(0, 0)))
    && forall p :: p in order && PidStats(t, p).Some? ==>
          !PidStats(t, p).value.Above(Stats(if best.None? then 0 else best.value, tier))
  }

  /** A readable pid at most four steps from the pane. */
  ghost predicate Candidate(t: Table, root: Pid, p: Pid) {
    Within(t, root, p, 4) && PidStats(t, p).Some?
  }

  ghost predicate TopCandidate(t: Table, root: Pid, p: Pid) {
    && Candidate(t, root, p)
    && forall q :: Candidate(t, root, q) ==> !PidStats(t, q).value.Above(PidStats(t, p).value)
  }

  ghost predicate RunsDedicated(t: Table, p: Pid) {
    t(p).comm.Some? && t(p).comm.value in ["claude", "codex", "gemini", "agy", "qmonster"]
  }

  ghost predicate RunsInterpreter(t: Table, p: Pid) {
    t(p).comm.Some? && t(p).comm.value in ["node", "python", "python3"]
  }

  lemma KindsApart(t: Table, p: Pid)
    ensures !(RunsDedicated(t, p) && RunsInterpreter(t, p))
  {
  }

  /** The statistics of a pid, by its command name. */
  lemma StatsAre(t: Table, p: Pid)
    ensures PidStats(t, p).Some? <==> t(p).rssKb.Some?
    ensures PidStats(t, p).Some? ==>
              && PidStats(t, p).value.rssKb == t(p).rssKb.value
              && PidStats(t, p).value.tier == if RunsDedicated(t, p) then 2 else if RunsInterpreter(t, p) then 1 else 0
  {
  }

  /** A dedicated CLI is preferred to an interpreter, and an interpreter to everything else, whatever their sizes;
      within the preferred kind the largest is taken. */
  lemma TopIsPreferred(t: Table, root: Pid, p: Pid, q: Pid)
    requires TopCandidate(t, root, p) && Within(t, root, q, 4) && t(q).rssKb.Some?
    ensures RunsDedicated(t, q) ==> RunsDedicated(t, p)
    ensures RunsInterpreter(t, q) ==> RunsDedicated(t, p) || RunsInterpreter(t, p)
    ensures (RunsDedicated(t, p) <==> RunsDedicated(t, q)) && (RunsInterpreter(t, p) <==> RunsInterpreter(t, q)) ==>
              t(p).rssKb.value >= t(q).rssKb.value
  {
    hide Within, RunsDedicated, RunsInterpreter;
    StatsAre(t, p);
    StatsAre(t, q);
    KindsApart(t, p);
    KindsApart(t, q);
  }

  lemma RankedIsTop(t: Table, root: Pid, last: nat, best: Option<nat>, tier: nat)
    requires last == MAX_DEPTH - 1
    requires Ranked(t, Seen(t, root, last), best, tier)
    ensures best.None? <==> forall p :: Candidate(t, root, p) ==> PidStats(t, p).value == Stats(0, 0)
    ensures best.Some? ==> exists p :: TopCandidate(t, root, p) && PidStats(t, p).value.rssKb == best.value
  {
    var order := Seen(t, root, last);
    forall p
      ensures Candidate(t, root, p) <==> p in order && PidStats(t, p).Some?
    {
      SeenIsBall(t, root, last, p);
    }
    if best.Some? {
      var p :| p in order && PidStats(t, p) == Some(Stats(best.value, tier));
      assert TopCandidate(t, root, p);
    }
  }

  method Rank(t: Table, ghost order: seq<Pid>, pid: Pid, best: Option<nat>, tier: nat)
    returns (newBest: Option<nat>, newTier: nat)
    requires Ranked(t, order, best, tier)
    ensures Ranked(t, order + [pid], newBest, newTier)
  {
    newBest, newTier := best, tier;
    var read := PidStats(t, pid);
    if read.Some? {
      var stats := read.value;
      var replace :=
        if stats.tier > tier then true
        else if stats.tier < tier then false
        else stats.rssKb > if best.Some? then best.value else 0;
      if replace {
        newBest, newTier := Some(stats.rssKb), stats.tier;
        assert pid in order + [pid];
      }
    }
    assert newBest == best && best.Some? ==> forall p :: p in order ==> p in order + [pid];
  }

  /** The innermost loop of both walks: push the children not visited yet. */
  method PushChildren(t: Table, frontier: seq<Pid>, i: nat, ghost seen: seq<Pid>, next: seq<Pid>, visited: set<Pid>)
    returns (newNext: seq<Pid>, newVisited: set<Pid>)
    requires i < |frontier|
    requires next == Fresh(AllChildren(t, frontier[..i]), seen)
    requires forall p :: p in visited <==> p in seen || p in next
    ensures newNext == Fresh(AllChildren(t, frontier[..i + 1]), seen)
    ensures forall p :: p in newVisited <==> p in seen || p in newNext
  {
    newNext, newVisited := next, visited;
    var children := t(frontier[i]).children;
    ghost var before := AllChildren(t, frontier[..i]);
    assert before + children[..0] == before;
    for j := 0 to |children|
      invariant newNext == Fresh(before + children[..j], seen)
      invariant forall p :: p in newVisited <==> p in seen || p in newNext
    {
      var child := children[j];
      ghost var pushed := before + children[..j + 1];
      assert pushed[..|pushed| - 1] == before + children[..j];
      if child !in newVisited {
        newVisited := newVisited + {child};
        newNext := newNext + [child];
      }
    }
    assert frontier[..i + 1][..i] == frontier[..i];
    assert children[..|children|] == children;
  }

  /** One round of the memory walk: rank the frontier and collect the next one. */
  method RankFrontier(t: Table, frontier: seq<Pid>, ghost order: seq<Pid>, ghost seen: seq<Pid>,
                      visited: set<Pid>, best: Option<nat>, tier: nat)
    returns (next: seq<Pid>, newVisited: set<Pid>, newBest: Option<nat>, newTier: nat)
    requires forall p :: p in visited <==> p in seen
    requires Ranked(t, order, best, tier)
    ensures next == Fresh(AllChildren(t, frontier), seen)
    ensures forall p :: p in newVisited <==> p in seen || p in next
    ensures Ranked(t, order + frontier, newBest, newTier)
  {
    next, newVisited, newBest, newTier := [], visited, best, tier;
    assert order + frontier[..0] == order;
    for i := 0 to |frontier|
      invariant next == Fresh(AllChildren(t, frontier[..i]), seen)
      invariant forall p :: p in newVisited <==> p in seen || p in next
      invariant Ranked(t, order + frontier[..i], newBest, newTier)
    {
      var pid := frontier[i];
      assert order + frontier[..i + 1] == order + frontier[..i] + [pid];
      newBest, newTier := Rank(t, order + frontier[..i], pid, newBest, newTier);
      next, newVisited := PushChildren(t, frontier, i, seen, next, newVisited);
    }
    assert frontier[..|frontier|] == frontier;
  }

  /** `read_descendant_rss_mb`: the answer is the lexicographic maximum of
      (tier, resident size) over the readable pids at most four steps from the
      pane, and is missing exactly when every such pid has tier 0 and size 0. */
  method ReadDescendantRssMb(t: Table, panePid: Pid) returns (mb: Option<real>)
    ensures mb.None? <==> forall p :: Candidate(t, panePid, p) ==> PidStats(t, p).value == Stats(0, 0)
    ensures mb.Some? ==>
              exists p :: TopCandidate(t, panePid, p) && mb.value == PidStats(t, p).value.rssKb as real / 1024.0
  {
    hide Fresh, AllChildren, Seen, Frontier, Ranked, Candidate, TopCandidate;
    WalkStarts(t, panePid);
    NothingRanked(t);
    var frontier := [panePid];
    var visited := {panePid};
    var depth := 0;
    var best: Option<nat> := None;
    var bestTier := 0;
    ghost var order := [];

    while frontier != [] && depth < MAX_DEPTH
      invariant depth <= MAX_DEPTH
      invariant frontier == Frontier(t, panePid, depth)
      invariant forall p :: p in visited <==> p in Seen(t, panePid, depth)
      invariant order == if depth == 0 then [] else Seen(t, panePid, depth - 1)
      invariant Ranked(t, order, best, bestTier)
      decreases MAX_DEPTH - depth
    {
      if depth > 0 {
        WalkGoesOn(t, panePid, depth - 1);
      }
      WalkGoesOn(t, panePid, depth);
      assert order + frontier == Seen(t, panePid, depth);
      frontier, visited, best, bestTier :=
        RankFrontier(t, frontier, order, Seen(t, panePid, depth), visited, best, bestTier);
      order := Seen(t, panePid, depth);
      depth := depth + 1;
    }
    ghost var last := if depth < MAX_DEPTH then MAX_DEPTH - 1 else depth - 1;
    WalkGoesOn(t, panePid, depth - 1);
    if depth < MAX_DEPTH {
      EmptyFrontierEndsWalk(t, panePid, depth, last);
    }
    assert order == Seen(t, panePid, last);
    RankedIsTop(t, panePid, last, best, bestTier);
    mb := if best.Some? then Some(best.value as real / 1024.0) else None;
  }

  // ----- The identity walk -----

  datatype Descriptor = Descriptor(pid: Pid, comm: string, argv: seq<string>, exe: Option<string>)

  predicate Cli(t: Table, p: Pid) {
    t(p).comm.Some? && IsCliComm(t(p).comm.value)
  }

  /** The command names of known CLIs. */
  lemma CliIff(t: Table, p: Pid)
    ensures Cli(t, p) <==> RunsDedicated(t, p) || RunsInterpreter(t, p)
  {
  }

  /** Position `k` of `order` holds the first known-CLI process, or, when there is
      none, the first readable process. */
  ghost predicate ChosenAt(t: Table, order: seq<Pid>, k: nat) {
    && k < |order|
    && t(order[k]).comm.Some?
    && if Cli(t, order[k]) then forall j :: 0 <= j < k ==> !Cli(t, order[j])
       else
         && (forall j :: 0 <= j < |order| ==> !Cli(t, order[j]))
         && forall j :: 0 <= j < k ==> t(order[j]).comm.None?
  }

  ghost predicate Unreadable(t: Table, order: seq<Pid>) {
    forall j :: 0 <= j < |order| ==> t(order[j]).comm.None?
  }

  /** `best` is what the walk holds after the pids of `order`: a pid and whether it is a known CLI. */
  ghost predicate Picked(t: Table, order: seq<Pid>, best: Option<(Pid, bool)>) {
    match best
    case None => Unreadable(t, order)
    case Some(b) => Cli(t, b.0) == b.1 && exists k: nat :: ChosenAt(t, order, k) && order[k] == b.0
  }

  /** The descendants of `root` down to the depth cap, in breadth-first order. */
  ghost function Descendants(t: Table, root: Pid): seq<Pid> {
    SeenNotEmpty(t, root, MAX_DEPTH - 1);
    Seen(t, root, MAX_DEPTH - 1)[1..]
  }

  /** The process that gives the pane its identity. */
  ghost predicate Identity(t: Table, root: Pid, p: Pid) {
    exists k: nat :: ChosenAt(t, Descendants(t, root), k) && Descendants(t, root)[k] == p
  }

  lemma {:induction false} SeenNotEmpty(t: Table, root: Pid, depth: nat)
    ensures Seen(t, root, depth) != [] && Seen(t, root, depth)[0] == root
  {
    if depth > 0 {
      SeenNotEmpty(t, root, depth - 1);
    }
  }

  lemma DistinctConcat(a: seq<Pid>, b: seq<Pid>)
    requires Distinct(a) && Distinct(b) && forall p :: p in b ==> p !in a
    ensures Distinct(a + b)
  {
    assert forall j :: 0 <= j < |b| ==> b[j] in b;
  }

  lemma {:induction false} SeenDistinct(t: Table, root: Pid, depth: nat)
    ensures Distinct(Seen(t, root, depth))
  {
    hide Fresh, AllChildren;
    if depth > 0 {
      SeenDistinct(t, root, depth - 1);
      FreshIsDedup(AllChildren(t, Frontier(t, root, depth - 1)), Seen(t, root, depth - 1));
      var before, frontier := Seen(t, root, depth - 1), Frontier(t, root, depth);
      assert Seen(t, root, depth) == before + frontier;
      DistinctConcat(before, frontier);
    }
  }

  /** Breadth-first order lists the pids by distance: whatever is nearer than the pid at
      position `k` stands before it. */
  lemma NearerIsEarlier(t: Table, root: Pid, last: nat, k: nat, d: nat, q: Pid) returns (j: nat)
    requires k < |Seen(t, root, last)| && 0 < d <= last
    requires Seen(t, root, last)[k] !in Seen(t, root, d - 1)
    requires Within(t, root, q, d - 1)
    ensures j < k && Seen(t, root, last)[j] == q
  {
    hide Fresh, AllChildren;
    SeenIsBall(t, root, d - 1, q);
    SeenGrows(t, root, d - 1, last);
    j :| 0 <= j < |Seen(t, root, d - 1)| && Seen(t, root, d - 1)[j] == q;
  }

  lemma IdentityPosition(t: Table, root: Pid, p: Pid) returns (k: nat, d: nat)
    requires Identity(t, root, p)
    ensures ChosenAt(t, Descendants(t, root), k) && Descendants(t, root)[k] == p != root
    ensures Seen(t, root, MAX_DEPTH - 1) == [root] + Descendants(t, root)
    ensures 0 < d < MAX_DEPTH && p in Frontier(t, root, d)
  {
    hide Fresh, AllChildren;
    var last := MAX_DEPTH - 1;
    var seen := Seen(t, root, last);
    SeenNotEmpty(t, root, last);
    SeenDistinct(t, root, last);
    assert seen == [root] + Descendants(t, root);
    k :| ChosenAt(t, Descendants(t, root), k) && Descendants(t, root)[k] == p;
    assert seen[k + 1] == p;
    d := SeenInFrontier(t, root, last, p);
    assert d == 0 ==> Frontier(t, root, d) == [root];
  }

  lemma DescendantAt(t: Table, root: Pid, q: Pid) returns (j: nat)
    requires q != root && Within(t, root, q, 4)
    ensures j < |Descendants(t, root)| && Descendants(t, root)[j] == q
  {
    hide Fresh, AllChildren;
    var last := MAX_DEPTH - 1;
    SeenIsBall(t, root, last, q);
    SeenNotEmpty(t, root, last);
    var i :| 0 <= i < |Seen(t, root, last)| && Seen(t, root, last)[i] == q;
    j := i - 1;
  }

  /** Whatever is nearer than the identity is unreadable, or the identity is a known CLI and this is none. */
  lemma NearerIsNoRival(t: Table, root: Pid, p: Pid, k: nat, d: nat, q: Pid)
    requires ChosenAt(t, Descendants(t, root), k) && Descendants(t, root)[k] == p
    requires 0 < d < MAX_DEPTH && p !in Seen(t, root, d - 1)
    requires q != root && Within(t, root, q, d - 1) && t(q).comm.Some?
    ensures Cli(t, p) && !Cli(t, q)
  {
    hide Fresh, AllChildren, Seen, Frontier, Within;
    SeenNotEmpty(t, root, MAX_DEPTH - 1);
    assert Seen(t, root, MAX_DEPTH - 1) == [root] + Descendants(t, root);
    var j := NearerIsEarlier(t, root, MAX_DEPTH - 1, k + 1, d, q);
    assert Descendants(t, root)[j - 1] == q;
  }

  /** The identity is never the pane pid, even in a cyclic tree. A known CLI is picked
      whenever one is at most four steps below the pane, and then one at minimum distance
      among the known CLIs; otherwise the nearest readable descendant is. */
  lemma IdentityIsNearest(t: Table, root: Pid, p: Pid) returns (d: nat)
    requires Identity(t, root, p)
    ensures p != root && 1 <= d <= 4 && AtDistance(t, root, p, d)
    ensures Cli(t, p) ==> forall q :: q != root && Cli(t, q) ==> !Within(t, root, q, d - 1)
    ensures !Cli(t, p) ==> forall q :: q != root && Within(t, root, q, 4) ==> !Cli(t, q)
    ensures !Cli(t, p) ==> forall q :: q != root && t(q).comm.Some? ==> !Within(t, root, q, d - 1)
  {
    hide Fresh, AllChildren, Seen, Frontier, Descendants, Within;
    var k;
    k, d := IdentityPosition(t, root, p);
    FrontierIsDistance(t, root, d);
    SeenIsBall(t, root, d - 1, p);
    forall q | q != root && Within(t, root, q, d - 1)
      ensures t(q).comm.Some? ==> Cli(t, p) && !Cli(t, q)
    {
      if t(q).comm.Some? {
        NearerIsNoRival(t, root, p, k, d, q);
      }
    }
    forall q | q != root && Within(t, root, q, 4)
      ensures !Cli(t, p) ==> !Cli(t, q)
    {
      var j := DescendantAt(t, root, q);
    }
  }

  lemma {:induction false} SomeChosen(t: Table, order: seq<Pid>) returns (k: nat)
    requires !Unreadable(t, order)
    ensures ChosenAt(t, order, k)
  {
    var n := |order| - 1;
    var init := order[..n];
    k := n;
    if !Unreadable(t, init) {
      var i := SomeChosen(t, init);
      assert order[i] == init[i];
      if !Cli(t, order[n]) || Cli(t, order[i]) {
        k := i;
      }
    }
  }

  /** The same rule read the other way: any readable descendant at most four steps away
      makes the walk pick some process. */
  lemma IdentityExists(t: Table, root: Pid, q: Pid) returns (p: Pid)
    requires q != root && Within(t, root, q, 4) && t(q).comm.Some?
    ensures Identity(t, root, p)
  {
    hide Descendants;
    var j := DescendantAt(t, root, q);
    var k := SomeChosen(t, Descendants(t, root));
    p := Descendants(t, root)[k];
  }

  lemma NoIdentity(t: Table, root: Pid)
    requires Unreadable(t, Descendants(t, root))
    ensures forall q :: q != root && Within(t, root, q, 4) ==> t(q).comm.None?
  {
    forall q | q != root && Within(t, root, q, 4)
      ensures t(q).comm.None?
    {
      var j := DescendantAt(t, root, q);
    }
  }

  /** There is one identity, and it is readable and at most four steps away. */
  lemma SomeIdentity(t: Table, root: Pid, p: Pid)
    requires Identity(t, root, p)
    ensures p != root && Within(t, root, p, 4) && t(p).comm.Some?
    ensures forall q :: Identity(t, root, q) ==> q == p
  {
    hide Fresh, AllChildren, Seen, Frontier;
    var d := IdentityIsNearest(t, root, p);
    var path :| PathOf(t, root, p, path) && |path| <= d + 1;
    assert Within(t, root, p, 4);
  }

  method Pick(t: Table, ghost order: seq<Pid>, pid: Pid, best: Option<(Pid, bool)>)
    returns (newBest: Option<(Pid, bool)>)
    requires Picked(t, order, best)
    ensures Picked(t, order + [pid], newBest)
  {
    newBest := best;
    ghost var longer := order + [pid];
    if t(pid).comm.Some? {
      var isCliComm := IsCliComm(t(pid).comm.value);
      var replace := match best
        case None => true
        case Some(b) => !b.1 && isCliComm;
      if replace {
        newBest := Some((pid, isCliComm));
        assert ChosenAt(t, longer, |order|);
      }
    }
    if newBest == best && best.Some? {
      ghost var k: nat :| ChosenAt(t, order, k) && order[k] == best.value.0;
      assert ChosenAt(t, longer, k);
    }
  }

  /** One round of the identity walk. The pane pid itself is no candidate. */
  method PickFrontier(t: Table, frontier: seq<Pid>, depth: nat, ghost order: seq<Pid>, ghost seen: seq<Pid>,
                      visited: set<Pid>, best: Option<(Pid, bool)>)
    returns (next: seq<Pid>, newVisited: set<Pid>, newBest: Option<(Pid, bool)>)
    requires forall p :: p in visited <==> p in seen
    requires Picked(t, order, best)
    ensures next == Fresh(AllChildren(t, frontier), seen)
    ensures forall p :: p in newVisited <==> p in seen || p in next
    ensures Picked(t, if depth > 0 then order + frontier else order, newBest)
  {
    next, newVisited, newBest := [], visited, best;
    assert order + frontier[..0] == order;
    for i := 0 to |frontier|
      invariant next == Fresh(AllChildren(t, frontier[..i]), seen)
      invariant forall p :: p in newVisited <==> p in seen || p in next
      invariant Picked(t, if depth > 0 then order + frontier[..i] else order, newBest)
    {
      if depth > 0 {
        assert order + frontier[..i + 1] == order + frontier[..i] + [frontier[i]];
        newBest := Pick(t, order + frontier[..i], frontier[i], newBest);
      }
      next, newVisited := PushChildren(t, frontier, i, seen, next, newVisited);
    }
    assert frontier[..|frontier|] == frontier;
  }

  /** The loop of the identity walk. */
  method FindIdentity(t: Table, panePid: Pid) returns (best: Option<(Pid, bool)>)
    ensures Picked(t, Descendants(t, panePid), best)
  {
    hide Fresh, AllChildren, Picked, Seen, Frontier;
    WalkStarts(t, panePid);
    var frontier := [panePid];
    var visited := {panePid};
    var depth := 0;
    best := None;
    ghost var order := [];
    NothingPicked(t);

    while frontier != [] && depth < MAX_DEPTH
      invariant depth <= MAX_DEPTH
      invariant frontier == Frontier(t, panePid, depth)
      invariant forall p :: p in visited <==> p in Seen(t, panePid, depth)
      invariant depth == 0 ==> order == []
      invariant depth > 0 ==> Seen(t, panePid, depth - 1) == [panePid] + order
      invariant Picked(t, order, best)
      decreases MAX_DEPTH - depth
    {
      if depth > 0 {
        WalkGoesOn(t, panePid, depth - 1);
      }
      WalkGoesOn(t, panePid, depth);
      frontier, visited, best :=
        PickFrontier(t, frontier, depth, order, Seen(t, panePid, depth), visited, best);
      if depth > 0 {
        order := order + Frontier(t, panePid, depth);
      }
      depth := depth + 1;
    }
    ghost var last := if depth < MAX_DEPTH then MAX_DEPTH - 1 else depth - 1;
    WalkGoesOn(t, panePid, depth - 1);
    if depth < MAX_DEPTH {
      EmptyFrontierEndsWalk(t, panePid, depth, last);
    }
    assert [panePid] + order == Seen(t, panePid, last);
    assert ([panePid] + order)[1..] == order;
  }

  lemma NothingRanked(t: Table)
    ensures Ranked(t, [], None, 0)
  {
  }

  lemma NothingPicked(t: Table)
    ensures Picked(t, [], None)
  {
  }

  /** `read_descendant_cli_process`: describes the identity of the pane, and is missing exactly
      when no descendant at most four steps away is readable or the identity has no argv. */
  method ReadDescendantCliProcess(t: Table, panePid: Pid) returns (desc: Option<Descriptor>)
    ensures desc.Some? ==>
              && Identity(t, panePid, desc.value.pid)
              && t(desc.value.pid).comm == Some(desc.value.comm)
              && t(desc.value.pid).argv == Some(desc.value.argv)
              && t(desc.value.pid).exe == desc.value.exe
    ensures desc.None? <==>
              || (forall q :: q != panePid && Within(t, panePid, q, 4) ==> t(q).comm.None?)
              || exists p :: Identity(t, panePid, p) && t(p).argv.None?
  {
    hide Seen, Frontier;
    var best := FindIdentity(t, panePid);
    match best
    case None =>
      NoIdentity(t, panePid);
      desc := None;
    case Some(b) =>
      var picked := t(b.0);
      SomeIdentity(t, panePid, b.0);
      if picked.comm.Some? && picked.argv.Some? {
        desc := Some(Descriptor(b.0, picked.comm.value, picked.argv.value, picked.exe));
      } else {
        desc := None;
      }
  }
}
