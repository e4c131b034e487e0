/** When the order of the directory listing decides which session log answers. Files may share a
    modification time; the stable sort then leaves them in listing order, and the cap of 64 may cut
    such a group in two. */
module RolloutOrder {
  import opened Wrappers
  import opened RecentFiles
  import opened CodexRollout

  ghost function Filter<T>(s: seq<T>, keep: T -> bool): seq<T> {
    if s == [] then []
    else Filter(s[..|s| - 1], keep) + if keep(s[|s| - 1]) then [s[|s| - 1]] else []
  }

  lemma {:induction false} FilterCounts<T>(s: seq<T>, keep: T -> bool, x: T)
    ensures multiset(Filter(s, keep))[x] == if keep(x) then multiset(s)[x] else 0
  {
    if s != [] {
      FilterCounts(s[..|s| - 1], keep, x);
      assert s == s[..|s| - 1] + [s[|s| - 1]];
    }
  }

  lemma FilterKeepsBag<T>(a: seq<T>, b: seq<T>, keep: T -> bool)
    requires multiset(a) == multiset(b)
    ensures multiset(Filter(a, keep)) == multiset(Filter(b, keep))
  {
    var p, q := multiset(Filter(a, keep)), multiset(Filter(b, keep));
    forall x | x in p + q
      ensures p[x] == q[x]
    {
      FilterCounts(a, keep, x);
      FilterCounts(b, keep, x);
    }
    assert forall x :: x !in p + q ==> p[x] == 0 == q[x];
  }

  lemma FilterKeeps<T>(s: seq<T>, keep: T -> bool, x: T)
    ensures x in Filter(s, keep) <==> x in s && keep(x)
  {
    hide Filter;
    FilterCounts(s, keep, x);
    assert x in Filter(s, keep) <==> x in multiset(Filter(s, keep));
    assert x in s <==> x in multiset(s);
  }

  ghost function Not<T>(keep: T -> bool): T -> bool {
    x => !keep(x)
  }

  lemma FilterSplits<T>(s: seq<T>, keep: T -> bool)
    ensures multiset(s) == multiset(Filter(s, keep)) + multiset(Filter(s, Not(keep)))
  {
    hide Filter;
    var parts := multiset(Filter(s, keep)) + multiset(Filter(s, Not(keep)));
    forall x | x in multiset(s) + parts
      ensures multiset(s)[x] == parts[x]
    {
      FilterCounts(s, keep, x);
      FilterCounts(s, Not(keep), x);
    }
    assert forall x :: x !in multiset(s) + parts ==> multiset(s)[x] == 0 == parts[x];
  }

  // ----- The three groups of files around the cap -----

  function NewerThan(time: int): Rollout -> bool {
    (f: Rollout) => f.mtime > time
  }

  function OfTime(time: int): Rollout -> bool {
    (f: Rollout) => f.mtime == time
  }

  function OlderThan(time: int): Rollout -> bool {
    (f: Rollout) => f.mtime < time
  }

  /** The files newer than `time`, of that time, and older, in order. */
  datatype Cut = Cut(newer: seq<Rollout>, tied: seq<Rollout>, older: seq<Rollout>) {
    function All(): seq<Rollout> {
      newer + tied + older
    }
  }

  ghost function CutAt(files: seq<Rollout>, time: int): Cut {
    Cut(Filter(files, NewerThan(time)), Filter(files, OfTime(time)), Filter(files, OlderThan(time)))
  }

  lemma CutHolds(files: seq<Rollout>, time: int)
    ensures var c := CutAt(files, time);
            && (forall f :: f in c.newer <==> f in files && f.mtime > time)
            && (forall f :: f in c.tied <==> f in files && f.mtime == time)
            && (forall f :: f in c.older <==> f in files && f.mtime < time)
  {
    hide Filter;
    var c := CutAt(files, time);
    forall f
      ensures f in c.newer <==> f in files && f.mtime > time
      ensures f in c.tied <==> f in files && f.mtime == time
      ensures f in c.older <==> f in files && f.mtime < time
    {
      FilterKeeps(files, NewerThan(time), f);
      FilterKeeps(files, OfTime(time), f);
      FilterKeeps(files, OlderThan(time), f);
    }
  }

  lemma CutGrows(files: seq<Rollout>, last: Rollout, time: int)
    ensures var c := CutAt(files, time);
            CutAt(files + [last], time) == Cut(
              if last.mtime > time then c.newer + [last] else c.newer,
              if last.mtime == time then c.tied + [last] else c.tied,
              if last.mtime < time then c.older + [last] else c.older)
  {
    assert (files + [last])[..|files|] == files;
  }

  /** A newest-first listing is its three groups, one after the other. */
  lemma {:induction false} CutJoins(sorted: seq<Rollout>, time: int)
    requires NewestFirst(sorted)
    ensures CutAt(sorted, time).All() == sorted
  {
    hide CutAt;
    if sorted == [] {
      EmptyCut(time);
    } else {
      var init, last := sorted[..|sorted| - 1], sorted[|sorted| - 1];
      CutJoins(init, time);
      assert sorted == init + [last];
      CutGrows(init, last, time);
      CutHolds(init, time);
      var c := CutAt(init, time);
      assert forall f :: f in init ==> f.mtime >= last.mtime;
      if last.mtime > time {
        NoMember(c.tied);
        NoMember(c.older);
      } else if last.mtime == time {
        NoMember(c.older);
      }
    }
  }

  lemma EmptyCut(time: int)
    ensures CutAt([], time) == Cut([], [], [])
  {
  }

  lemma NoMember(fs: seq<Rollout>)
    requires forall f :: f !in fs
    ensures fs == []
  {
    forall f
      ensures f !in multiset(fs)
    {
      assert f in multiset(fs) ==> f in fs;
    }
    assert multiset(fs) == multiset{};
    assert |fs| == |multiset(fs)|;
  }

  /** The groups around the 64th newest file. */
  ghost function CapCut(files: seq<Rollout>): Cut
    requires |files| > MAX_CANDIDATES
  {
    var sorted := SortNewestFirst(files);
    assert |sorted| == |multiset(sorted)| == |multiset(files)| == |files|;
    CutAt(sorted, sorted[MAX_CANDIDATES - 1].mtime)
  }

  lemma GroupAt(c: Cut, sorted: seq<Rollout>, time: int, at: nat)
    requires c.All() == sorted && at < |sorted|
    requires (forall f :: f in c.newer ==> f.mtime > time) && forall f :: f in c.older ==> f.mtime < time
    ensures at < |c.newer| ==> sorted[at].mtime > time
    ensures at >= |c.newer| + |c.tied| ==> sorted[at].mtime < time
  {
  }

  /** The 64th newest file is one of the tied group, so the cap falls into that group or right behind it. */
  lemma CapFallsIntoTie(files: seq<Rollout>)
    requires |files| > MAX_CANDIDATES
    ensures var c := CapCut(files);
            && |c.newer| < MAX_CANDIDATES <= |c.newer| + |c.tied|
            && c.All() == SortNewestFirst(files)
  {
    hide SortNewestFirst, CutAt;
    var sorted := SortNewestFirst(files);
    SameLength(files, sorted);
    var at := MAX_CANDIDATES - 1;
    var c := CutAt(sorted, sorted[at].mtime);
    CutJoins(sorted, sorted[at].mtime);
    CutHolds(sorted, sorted[at].mtime);
    GroupAt(c, sorted, sorted[at].mtime, at);
  }

  /** The tied group falls into the files that are read and the others. */
  ghost predicate Choice(c: Cut, picked: seq<Rollout>, rest: seq<Rollout>) {
    |c.newer| + |picked| == MAX_CANDIDATES && multiset(picked) + multiset(rest) == multiset(c.tied)
  }

  lemma GroupsKeepBags(a: seq<Rollout>, b: seq<Rollout>, time: int)
    requires multiset(a) == multiset(b)
    ensures var c, d := CutAt(a, time), CutAt(b, time);
            && multiset(c.newer) == multiset(d.newer) && |c.newer| == |d.newer|
            && multiset(c.tied) == multiset(d.tied) && |c.tied| == |d.tied|
  {
    hide Filter;
    var c, d := CutAt(a, time), CutAt(b, time);
    FilterKeepsBag(a, b, NewerThan(time));
    FilterKeepsBag(a, b, OfTime(time));
    assert |d.newer| == |multiset(d.newer)| == |multiset(c.newer)| == |c.newer|;
    assert |d.tied| == |multiset(d.tied)| == |multiset(c.tied)| == |c.tied|;
  }

  lemma FirstOfTie(d: Cut, picked: seq<Rollout>, rest: seq<Rollout>)
    requires |d.newer| + |picked| == MAX_CANDIDATES && d.tied == picked + rest
    ensures |d.All()| >= MAX_CANDIDATES && d.All()[..MAX_CANDIDATES] == d.newer + picked
  {
    assert d.All() == d.newer + picked + (rest + d.older);
  }

  lemma SameLength(a: seq<Rollout>, b: seq<Rollout>)
    requires multiset(a) == multiset(b)
    ensures |a| == |b|
  {
    assert |a| == |multiset(a)| == |multiset(b)| == |b|;
  }

  /** Whatever the order of the listing, the files read are the newer ones and a choice of the tied ones. */
  lemma OrderMakesChoice(a: seq<Rollout>, b: seq<Rollout>) returns (picked: seq<Rollout>, rest: seq<Rollout>)
    requires |a| > MAX_CANDIDATES && multiset(a) == multiset(b)
    ensures Choice(CapCut(a), picked, rest)
    ensures multiset(Capped(b)) == multiset(CapCut(a).newer) + multiset(picked)
  {
    hide SortNewestFirst, CutAt, NewestFirst;
    CapFallsIntoTie(a);
    var sa, sb, c := SortNewestFirst(a), SortNewestFirst(b), CapCut(a);
    SameLength(a, sa);
    SameLength(a, sb);
    var time := sa[MAX_CANDIDATES - 1].mtime;
    var d := CutAt(sb, time);
    GroupsKeepBags(sa, sb, time);
    CutJoins(sb, time);
    var room := MAX_CANDIDATES - |c.newer|;
    picked, rest := d.tied[..room], d.tied[room..];
    assert d.tied == picked + rest;
    FirstOfTie(d, picked, rest);
    assert Capped(b) == d.newer + picked;
  }

  lemma SliceStaysSorted(fs: seq<Rollout>, i: nat, j: nat)
    requires i <= j <= |fs| && NewestFirst(fs)
    ensures NewestFirst(fs[i..j])
  {
  }

  lemma NewestFirstConcat(a: seq<Rollout>, b: seq<Rollout>, time: int)
    requires NewestFirst(a) && NewestFirst(b)
    requires (forall f :: f in a ==> f.mtime >= time) && forall f :: f in b ==> f.mtime <= time
    ensures NewestFirst(a + b)
  {
    assert forall i :: 0 <= i < |a| ==> a[i] in a;
    assert forall i :: 0 <= i < |b| ==> b[i] in b;
  }

  /** The three groups make a newest-first listing, in whatever order the tied files are. */
  lemma AnyTieOrderIsSorted(c: Cut, time: int, ties: seq<Rollout>)
    requires NewestFirst(c.All()) && multiset(ties) == multiset(c.tied)
    requires forall f :: f in c.newer ==> f.mtime > time
    requires forall f :: f in c.tied ==> f.mtime == time
    requires forall f :: f in c.older ==> f.mtime < time
    ensures NewestFirst(c.newer + ties + c.older)
  {
    forall f | f in ties
      ensures f.mtime == time
    {
      assert f in multiset(ties) && f in multiset(c.tied);
    }
    var n, all := |c.newer|, c.All();
    SliceStaysSorted(all, 0, n);
    SliceStaysSorted(all, |all| - |c.older|, |all|);
    assert c.newer == all[0..n] && c.older == all[|all| - |c.older|..|all|];
    assert NewestFirst(ties) by {
      assert forall i :: 0 <= i < |ties| ==> ties[i] in ties;
    }
    NewestFirstConcat(c.newer, ties, time);
    NewestFirstConcat(c.newer + ties, c.older, time);
  }

  /** Every choice is made by some order of the listing. */
  lemma ChoiceHasOrder(a: seq<Rollout>, picked: seq<Rollout>, rest: seq<Rollout>) returns (b: seq<Rollout>)
    requires |a| > MAX_CANDIDATES && Choice(CapCut(a), picked, rest)
    ensures multiset(b) == multiset(a)
    ensures multiset(Capped(b)) == multiset(CapCut(a).newer) + multiset(picked)
  {
    hide SortNewestFirst, Filter, NewestFirst;
    CapFallsIntoTie(a);
    var sa, c, ties := SortNewestFirst(a), CapCut(a), picked + rest;
    SameLength(a, sa);
    CutHolds(sa, sa[MAX_CANDIDATES - 1].mtime);
    AnyTieOrderIsSorted(c, sa[MAX_CANDIDATES - 1].mtime, ties);
    b := c.newer + ties + c.older;
    assert multiset(b) == multiset(c.newer) + multiset(c.tied) + multiset(c.older) == multiset(c.All());
    SortedStays(b);
    SameLength(a, b);
    assert b[..MAX_CANDIDATES] == c.newer + picked;
  }

  // ----- What a choice answers -----

  ghost predicate HasMatch(fs: seq<Rollout>, cwd: string) {
    exists f :: f in fs && ParsedFile(f, cwd).Some?
  }

  /** The newer files alone would answer, with a file less than a minute newer than the tied ones. */
  ghost predicate AnswersClose(newer: seq<Rollout>, time: int, cwd: string) {
    exists f :: Alone(multiset(newer), f, cwd) && f.mtime - time < AMBIGUITY_WINDOW
  }

  ghost predicate Around(newer: multiset<Rollout>, tied: multiset<Rollout>, time: int) {
    (forall f :: f in newer ==> f.mtime > time) && forall f :: f in tied ==> f.mtime == time
  }

  lemma SameAnswer(a: multiset<Rollout>, b: multiset<Rollout>, cwd: string)
    requires forall f :: Alone(a, f, cwd) <==> Alone(b, f, cwd)
    ensures AnswerOf(a, cwd) == AnswerOf(b, cwd)
  {
    hide Alone, ParsedFile;
    if f :| Alone(a, f, cwd) {
      AnswerIs(a, f, cwd);
      AnswerIs(b, f, cwd);
    }
  }

  lemma AloneAmongNewer(newer: multiset<Rollout>, tied: multiset<Rollout>, time: int, f: Rollout, g: Rollout,
                        cwd: string)
    requires Around(newer, tied, time) && Alone(newer + tied, f, cwd)
    requires g in newer && ParsedFile(g, cwd).Some?
    ensures f in newer && Alone(newer, f, cwd)
    ensures forall m :: m in tied && ParsedFile(m, cwd).Some? ==> f.mtime - time >= AMBIGUITY_WINDOW
  {
    hide ParsedFile;
    if f != g {
      AloneIsFar(newer + tied, f, g, cwd);
    }
    assert (newer + tied) - multiset{f} == (newer - multiset{f}) + tied;
  }

  /** Tied files that do not match change nothing. */
  lemma NoTiedMatch(newer: multiset<Rollout>, tied: multiset<Rollout>, cwd: string)
    requires forall m :: m in tied ==> ParsedFile(m, cwd).None?
    ensures AnswerOf(newer + tied, cwd) == AnswerOf(newer, cwd)
  {
    hide ParsedFile;
    forall f
      ensures Alone(newer + tied, f, cwd) <==> Alone(newer, f, cwd)
    {
      if f in newer {
        assert (newer + tied) - multiset{f} == (newer - multiset{f}) + tied;
      }
    }
    SameAnswer(newer + tied, newer, cwd);
  }

  /** The newer files have decided: they are ambiguous, or answer with a file far newer than the tied ones. */
  lemma NewerDecide(newer: seq<Rollout>, tied: multiset<Rollout>, time: int, cwd: string)
    requires Around(multiset(newer), tied, time)
    requires HasMatch(newer, cwd) && !AnswersClose(newer, time, cwd)
    ensures AnswerOf(multiset(newer) + tied, cwd) == AnswerOf(multiset(newer), cwd)
  {
    hide ParsedFile;
    var bag := multiset(newer);
    var g :| g in newer && ParsedFile(g, cwd).Some?;
    forall f
      ensures Alone(bag + tied, f, cwd) <==> Alone(bag, f, cwd)
    {
      if Alone(bag + tied, f, cwd) {
        AloneAmongNewer(bag, tied, time, f, g, cwd);
      }
      if Alone(bag, f, cwd) {
        assert (bag + tied) - multiset{f} == (bag - multiset{f}) + tied;
      }
    }
    SameAnswer(bag + tied, bag, cwd);
  }

  /** A tied match makes a close answer ambiguous. */
  lemma TiedMatchSilences(newer: seq<Rollout>, tied: multiset<Rollout>, time: int, m: Rollout, cwd: string)
    requires Around(multiset(newer), tied, time) && AnswersClose(newer, time, cwd)
    requires m in tied && ParsedFile(m, cwd).Some?
    ensures AnswerOf(multiset(newer) + tied, cwd) == None
  {
    hide ParsedFile;
    var bag := multiset(newer);
    var g :| Alone(bag, g, cwd) && g.mtime - time < AMBIGUITY_WINDOW;
    forall f
      ensures !Alone(bag + tied, f, cwd)
    {
      if Alone(bag + tied, f, cwd) {
        AloneAmongNewer(bag, tied, time, f, g, cwd);
        AloneIsUnique(bag, f, g, cwd);
      }
    }
  }

  lemma AloneBeatsTwo(bag: multiset<Rollout>, f: Rollout, m: Rollout, n: Rollout, cwd: string)
    requires Alone(bag, f, cwd) && m in bag && n in bag - multiset{m}
    requires ParsedFile(m, cwd).Some? && ParsedFile(n, cwd).Some?
    ensures f.mtime - m.mtime >= AMBIGUITY_WINDOW || f.mtime - n.mtime >= AMBIGUITY_WINDOW
  {
    hide ParsedFile;
    assert (if f == m then n else m) in bag - multiset{f};
  }

  /** Two tied matches are ambiguous when nothing newer matches. */
  lemma TwoTiedMatches(newer: seq<Rollout>, tied: multiset<Rollout>, time: int, m: Rollout, n: Rollout, cwd: string)
    requires Around(multiset(newer), tied, time) && !HasMatch(newer, cwd)
    requires m in tied && n in tied - multiset{m} && ParsedFile(m, cwd).Some? && ParsedFile(n, cwd).Some?
    ensures AnswerOf(multiset(newer) + tied, cwd) == None
  {
    hide ParsedFile;
    var bag := multiset(newer) + tied;
    forall f
      ensures !Alone(bag, f, cwd)
    {
      if Alone(bag, f, cwd) {
        AloneBeatsTwo(bag, f, m, n, cwd);
      }
    }
  }

  /** A single tied match answers when nothing newer matches. */
  lemma OneTiedMatch(newer: seq<Rollout>, others: seq<Rollout>, m: Rollout, cwd: string)
    requires !HasMatch(newer, cwd) && !HasMatch(others, cwd) && ParsedFile(m, cwd).Some?
    ensures AnswerOf(multiset(newer) + multiset([m] + others), cwd) == ParsedFile(m, cwd)
  {
    hide ParsedFile;
    var bag := multiset(newer) + multiset([m] + others);
    assert bag - multiset{m} == multiset(newer) + multiset(others);
    assert Alone(bag, m, cwd);
    AnswerIs(bag, m, cwd);
  }

  // ----- Choices with a given number of matches -----

  ghost function IsFor(cwd: string): Rollout -> bool {
    (f: Rollout) => ParsedFile(f, cwd).Some?
  }

  ghost function Matches(fs: seq<Rollout>, cwd: string): seq<Rollout> {
    Filter(fs, IsFor(cwd))
  }

  ghost function Others(fs: seq<Rollout>, cwd: string): seq<Rollout> {
    Filter(fs, Not(IsFor(cwd)))
  }

  lemma MatchesHold(fs: seq<Rollout>, cwd: string)
    ensures forall f :: f in Matches(fs, cwd) <==> f in fs && ParsedFile(f, cwd).Some?
    ensures forall f :: f in Others(fs, cwd) <==> f in fs && ParsedFile(f, cwd).None?
    ensures HasMatch(fs, cwd) <==> Matches(fs, cwd) != []
    ensures multiset(fs) == multiset(Matches(fs, cwd)) + multiset(Others(fs, cwd))
    ensures |fs| == |Matches(fs, cwd)| + |Others(fs, cwd)|
  {
    hide ParsedFile, Filter;
    forall f
      ensures f in Matches(fs, cwd) <==> f in fs && ParsedFile(f, cwd).Some?
      ensures f in Others(fs, cwd) <==> f in fs && ParsedFile(f, cwd).None?
    {
      FilterKeeps(fs, IsFor(cwd), f);
      FilterKeeps(fs, Not(IsFor(cwd)), f);
    }
    FilterSplits(fs, IsFor(cwd));
    assert |fs| == |multiset(fs)| == |multiset(Matches(fs, cwd))| + |multiset(Others(fs, cwd))|;
    if HasMatch(fs, cwd) {
      var f :| f in fs && ParsedFile(f, cwd).Some?;
      assert f in Matches(fs, cwd);
    } else {
      NoMember(Matches(fs, cwd));
    }
  }

  /** At most the files that do not match can be picked instead of matches. */
  lemma MatchesAreForced(c: Cut, picked: seq<Rollout>, rest: seq<Rollout>, cwd: string)
    requires Choice(c, picked, rest)
    ensures |Matches(picked, cwd)| >= |picked| - |Others(c.tied, cwd)|
  {
    hide ParsedFile, Filter, IsFor;
    var keep := Not(IsFor(cwd));
    MatchesHold(picked, cwd);
    FilterKeepsBag(picked + rest, c.tied, keep);
    FilterConcat(picked, rest, keep);
    assert |Others(c.tied, cwd)| == |multiset(Others(c.tied, cwd))| == |Others(picked, cwd)| + |Others(rest, cwd)|;
  }

  lemma {:induction false} FilterConcat<T>(a: seq<T>, b: seq<T>, keep: T -> bool)
    ensures Filter(a + b, keep) == Filter(a, keep) + Filter(b, keep)
  {
    if b == [] {
      assert a + b == a;
    } else {
      FilterConcat(a, b[..|b| - 1], keep);
      assert (a + b)[..|a + b| - 1] == a + b[..|b| - 1];
    }
  }

  /** Any number of matches can be picked that leaves room for what is left to be filled. */
  lemma PickMatches(c: Cut, k: nat, cwd: string) returns (picked: seq<Rollout>, rest: seq<Rollout>)
    requires |c.newer| < MAX_CANDIDATES
    requires k <= |Matches(c.tied, cwd)| && 0 <= MAX_CANDIDATES - |c.newer| - k <= |Others(c.tied, cwd)|
    ensures Choice(c, picked, rest)
    ensures picked == Matches(c.tied, cwd)[..k] + Others(c.tied, cwd)[..MAX_CANDIDATES - |c.newer| - k]
  {
    hide ParsedFile, Filter, IsFor;
    MatchesHold(c.tied, cwd);
    var ms, us, fill := Matches(c.tied, cwd), Others(c.tied, cwd), MAX_CANDIDATES - |c.newer| - k;
    picked, rest := ms[..k] + us[..fill], ms[k..] + us[fill..];
    assert ms == ms[..k] + ms[k..] && us == us[..fill] + us[fill..];
  }

  // ----- The exact condition -----

  /** The order of the listing does not decide: no tie straddles the cap; or no tied file matches; or the newer
      files have decided already; or so many tied files match that an answer is ambiguous in any case; or one
      tied file is read, and all of them answer the same. */
  ghost predicate Decided(c: Cut, time: int, cwd: string) {
    var room, matches, others := MAX_CANDIDATES - |c.newer|, Matches(c.tied, cwd), |Others(c.tied, cwd)|;
    || |c.tied| == room
    || matches == []
    || (HasMatch(c.newer, cwd) && (!AnswersClose(c.newer, time, cwd) || room > others))
    || room > others + 1
    || (room == 1 && others == 0 && forall f :: f in matches ==> ParsedFile(f, cwd) == ParsedFile(matches[0], cwd))
  }

  ghost function ChoiceAnswer(c: Cut, picked: seq<Rollout>, cwd: string): Option<Signals> {
    AnswerOf(multiset(c.newer) + multiset(picked), cwd)
  }

  ghost predicate CutAround(c: Cut, time: int) {
    && Around(multiset(c.newer), multiset(c.tied), time)
    && |c.newer| < MAX_CANDIDATES <= |c.newer| + |c.tied|
  }

  /** The answer when the order does not decide. */
  ghost function DecidedAnswer(c: Cut, time: int, cwd: string): Option<Signals> {
    var matches := Matches(c.tied, cwd);
    if |c.newer| + |c.tied| == MAX_CANDIDATES then ChoiceAnswer(c, c.tied, cwd)
    else if matches == [] || (HasMatch(c.newer, cwd) && !AnswersClose(c.newer, time, cwd)) then
      AnswerOf(multiset(c.newer), cwd)
    else if HasMatch(c.newer, cwd) || |c.newer| + 1 < MAX_CANDIDATES then None
    else ParsedFile(matches[0], cwd)
  }

  lemma ChoiceIsTied(c: Cut, time: int, picked: seq<Rollout>, rest: seq<Rollout>)
    requires CutAround(c, time) && Choice(c, picked, rest)
    ensures Around(multiset(c.newer), multiset(picked), time)
    ensures forall f :: f in picked ==> f in c.tied
    ensures |c.newer| + |c.tied| == MAX_CANDIDATES ==> multiset(picked) == multiset(c.tied)
  {
    forall f | f in multiset(picked)
      ensures f in c.tied
    {
      assert f in multiset(c.tied);
    }
    assert |c.tied| == |multiset(c.tied)| == |picked| + |rest|;
    if |c.newer| + |c.tied| == MAX_CANDIDATES {
      assert rest == [];
    }
  }

  lemma TwoMembers(ms: seq<Rollout>, us: seq<Rollout>, bag: multiset<Rollout>)
    requires |ms| >= 2 && bag == multiset(ms) + multiset(us)
    ensures ms[0] in bag && ms[1] in bag - multiset{ms[0]}
  {
    assert ms == [ms[0]] + ms[1..];
    assert ms[1] == ms[1..][0];
    assert bag - multiset{ms[0]} == multiset(ms[1..]) + multiset(us);
  }

  lemma DecidedAnswers(c: Cut, time: int, picked: seq<Rollout>, rest: seq<Rollout>, cwd: string)
    requires CutAround(c, time) && Choice(c, picked, rest) && Decided(c, time, cwd)
    ensures ChoiceAnswer(c, picked, cwd) == DecidedAnswer(c, time, cwd)
  {
    hide ParsedFile, Filter, IsFor, Matches, Others, Around, AnswerOf, AnswersClose, Alone;
    var ms := Matches(picked, cwd);
    MatchesHold(c.tied, cwd);
    MatchesHold(picked, cwd);
    MatchesAreForced(c, picked, rest, cwd);
    ChoiceIsTied(c, time, picked, rest);
    if |c.newer| + |c.tied| == MAX_CANDIDATES {
    } else if Matches(c.tied, cwd) == [] {
      NoTiedMatch(multiset(c.newer), multiset(picked), cwd);
    } else if HasMatch(c.newer, cwd) && !AnswersClose(c.newer, time, cwd) {
      NewerDecide(c.newer, multiset(picked), time, cwd);
    } else if HasMatch(c.newer, cwd) {
      assert ms[0] in ms;
      TiedMatchSilences(c.newer, multiset(picked), time, ms[0], cwd);
    } else if |c.newer| + 1 < MAX_CANDIDATES {
      assert ms[0] in ms && ms[1] in ms;
      TwoMembers(ms, Others(picked, cwd), multiset(picked));
      TwoTiedMatches(c.newer, multiset(picked), time, ms[0], ms[1], cwd);
    } else {
      assert picked == [picked[0]] + [] && picked[0] in picked;
      assert picked[0] !in Others(c.tied, cwd);
      NoMatchInNothing(cwd);
      OneTiedMatch(c.newer, [], picked[0], cwd);
    }
  }

  lemma NoMatchInNothing(cwd: string)
    ensures !HasMatch([], cwd)
  {
  }

  lemma NewerAnswer(newer: seq<Rollout>, time: int, cwd: string)
    ensures AnswersClose(newer, time, cwd) ==> AnswerOf(multiset(newer), cwd) != None
    ensures !HasMatch(newer, cwd) ==> AnswerOf(multiset(newer), cwd) == None
  {
    hide ParsedFile;
    if f :| Alone(multiset(newer), f, cwd) {
      AnswerIs(multiset(newer), f, cwd);
      assert f in newer;
    }
  }

  ghost predicate CanPick(c: Cut, k: nat, cwd: string) {
    k <= |Matches(c.tied, cwd)| && 0 <= MAX_CANDIDATES - |c.newer| - k <= |Others(c.tied, cwd)|
  }

  /** No tied match is read. */
  lemma PickNone(c: Cut, time: int, cwd: string) returns (picked: seq<Rollout>, rest: seq<Rollout>)
    requires CutAround(c, time) && CanPick(c, 0, cwd)
    ensures Choice(c, picked, rest)
    ensures ChoiceAnswer(c, picked, cwd) == AnswerOf(multiset(c.newer), cwd)
  {
    hide ParsedFile, Filter, Matches, Others, Around, AnswerOf;
    picked, rest := PickMatches(c, 0, cwd);
    MatchesHold(c.tied, cwd);
    assert forall f :: f in picked ==> f in Others(c.tied, cwd);
    NoTiedMatch(multiset(c.newer), multiset(picked), cwd);
  }

  /** One tied match is read. */
  lemma PickOne(c: Cut, time: int, cwd: string) returns (picked: seq<Rollout>, rest: seq<Rollout>)
    requires CutAround(c, time) && CanPick(c, 1, cwd)
    ensures Choice(c, picked, rest)
    ensures AnswersClose(c.newer, time, cwd) ==> ChoiceAnswer(c, picked, cwd) == None
    ensures !HasMatch(c.newer, cwd) ==> ChoiceAnswer(c, picked, cwd) == ParsedFile(Matches(c.tied, cwd)[0], cwd) != None
  {
    hide ParsedFile, Filter, Matches, Others, Around, AnswerOf, AnswersClose, Alone;
    picked, rest := PickMatches(c, 1, cwd);
    ChoiceIsTied(c, time, picked, rest);
    MatchesHold(c.tied, cwd);
    var m, fill := Matches(c.tied, cwd)[0], picked[1..];
    assert m in Matches(c.tied, cwd) && m in picked && picked == [m] + fill;
    assert forall f :: f in fill ==> f in Others(c.tied, cwd);
    if AnswersClose(c.newer, time, cwd) {
      TiedMatchSilences(c.newer, multiset(picked), time, m, cwd);
    }
    if !HasMatch(c.newer, cwd) {
      OneTiedMatch(c.newer, fill, m, cwd);
    }
  }

  /** Two tied matches are read. */
  lemma PickTwo(c: Cut, time: int, cwd: string) returns (picked: seq<Rollout>, rest: seq<Rollout>)
    requires CutAround(c, time) && CanPick(c, 2, cwd) && !HasMatch(c.newer, cwd)
    ensures Choice(c, picked, rest)
    ensures ChoiceAnswer(c, picked, cwd) == None
  {
    hide ParsedFile, Filter, Matches, Others, Around, AnswerOf, HasMatch;
    picked, rest := PickMatches(c, 2, cwd);
    ChoiceIsTied(c, time, picked, rest);
    MatchesHold(c.tied, cwd);
    var ms := Matches(c.tied, cwd);
    assert ms[0] in ms && ms[1] in ms;
    assert picked == ms[..2] + picked[2..];
    TwoMembers(ms[..2], picked[2..], multiset(picked));
    TwoTiedMatches(c.newer, multiset(picked), time, ms[0], ms[1], cwd);
  }

  /** One tied file is read, and it may be any of them. */
  lemma PickAny(c: Cut, m: Rollout, cwd: string) returns (rest: seq<Rollout>)
    requires |c.newer| + 1 == MAX_CANDIDATES && m in c.tied && !HasMatch(c.newer, cwd) && ParsedFile(m, cwd).Some?
    ensures Choice(c, [m], rest)
    ensures ChoiceAnswer(c, [m], cwd) == ParsedFile(m, cwd)
  {
    hide ParsedFile, AnswerOf, Alone;
    var i :| 0 <= i < |c.tied| && c.tied[i] == m;
    rest := c.tied[..i] + c.tied[i + 1..];
    assert c.tied == c.tied[..i] + [m] + c.tied[i + 1..];
    assert [m] == [m] + [];
    NoMatchInNothing(cwd);
    OneTiedMatch(c.newer, [], m, cwd);
  }

  /** When the order is not excluded from deciding, two choices answer differently. */
  lemma UndecidedDiffers(c: Cut, time: int, cwd: string)
    returns (p: seq<Rollout>, pRest: seq<Rollout>, q: seq<Rollout>, qRest: seq<Rollout>)
    requires CutAround(c, time) && !Decided(c, time, cwd)
    ensures Choice(c, p, pRest) && Choice(c, q, qRest)
    ensures ChoiceAnswer(c, p, cwd) != ChoiceAnswer(c, q, cwd)
  {
    hide ParsedFile, Filter, IsFor, Matches, Others, Around, ChoiceAnswer, AnswersClose, HasMatch;
    var room, ms, us := MAX_CANDIDATES - |c.newer|, Matches(c.tied, cwd), Others(c.tied, cwd);
    MatchesHold(c.tied, cwd);
    NewerAnswer(c.newer, time, cwd);
    if room <= |us| {
      p, pRest := PickNone(c, time, cwd);
      q, qRest := PickOne(c, time, cwd);
    } else if room > 1 {
      p, pRest := PickOne(c, time, cwd);
      q, qRest := PickTwo(c, time, cwd);
    } else {
      var m :| m in ms && ParsedFile(m, cwd) != ParsedFile(ms[0], cwd);
      assert ms[0] in ms;
      p, q := [ms[0]], [m];
      pRest := PickAny(c, ms[0], cwd);
      qRest := PickAny(c, m, cwd);
    }
  }

  /** The answer is the same for every order of the listing. */
  ghost predicate OrderFree(files: seq<Rollout>, cwd: string) {
    forall b :: multiset(b) == multiset(files) ==>
      AnswerOf(multiset(Capped(b)), cwd) == AnswerOf(multiset(Capped(files)), cwd)
  }

  /** The time of the 64th newest file. */
  ghost function CapTime(files: seq<Rollout>): int
    requires |files| > MAX_CANDIDATES
  {
    var sorted := SortNewestFirst(files);
    assert |sorted| == |multiset(sorted)| == |multiset(files)| == |files|;
    sorted[MAX_CANDIDATES - 1].mtime
  }

  lemma CapCutIsAround(files: seq<Rollout>)
    requires |files| > MAX_CANDIDATES
    ensures CutAround(CapCut(files), CapTime(files))
  {
    hide SortNewestFirst, CutAt;
    CapFallsIntoTie(files);
    CutHolds(SortNewestFirst(files), CapTime(files));
  }

  /** The order of the listing plays no part in the answer exactly when at most 64 files are listed or the files
      around the cap decide whatever their order. */
  lemma OrderIsIrrelevantIff(files: seq<Rollout>, cwd: string)
    ensures OrderFree(files, cwd) <==>
              |files| <= MAX_CANDIDATES || Decided(CapCut(files), CapTime(files), cwd)
  {
    hide Decided, AnswerOf, SortNewestFirst, CapCut, CapTime, CutAround, Choice;
    if |files| <= MAX_CANDIDATES {
      AllAreRead(files, cwd);
    } else {
      var c, time := CapCut(files), CapTime(files);
      CapCutIsAround(files);
      if Decided(c, time, cwd) {
        forall b | multiset(b) == multiset(files)
          ensures AnswerOf(multiset(Capped(b)), cwd) == DecidedAnswer(c, time, cwd)
        {
          var picked, rest := OrderMakesChoice(files, b);
          DecidedAnswers(c, time, picked, rest, cwd);
        }
      } else {
        var p, pRest, q, qRest := UndecidedDiffers(c, time, cwd);
        var a := ChoiceHasOrder(files, p, pRest);
        var b := ChoiceHasOrder(files, q, qRest);
        assert AnswerOf(multiset(Capped(a)), cwd) != AnswerOf(multiset(Capped(b)), cwd);
      }
    }
  }

  lemma AllAreRead(files: seq<Rollout>, cwd: string)
    requires |files| <= MAX_CANDIDATES
    ensures OrderFree(files, cwd)
  {
    hide AnswerOf;
    forall b | multiset(b) == multiset(files)
      ensures multiset(Capped(b)) == multiset(files)
    {
      assert |SortNewestFirst(b)| == |multiset(SortNewestFirst(b))| == |multiset(files)| == |files|;
    }
  }

  /** In particular it plays no part when the 64th newest file is newer than the next one: the files read are the
      same then. */
  lemma NoTieAcrossCap(files: seq<Rollout>, b: seq<Rollout>, cwd: string)
    requires multiset(b) == multiset(files)
    requires var sorted := SortNewestFirst(files);
             |sorted| > MAX_CANDIDATES ==> sorted[MAX_CANDIDATES - 1].mtime > sorted[MAX_CANDIDATES].mtime
    ensures multiset(Capped(b)) == multiset(Capped(files))
    ensures AnswerOf(multiset(Capped(b)), cwd) == AnswerOf(multiset(Capped(files)), cwd)
  {
    hide SortNewestFirst, CutAt, AnswerOf;
    var sorted := SortNewestFirst(files);
    assert |sorted| == |multiset(sorted)| == |multiset(files)| == |files|;
    if |files| <= MAX_CANDIDATES {
      assert |SortNewestFirst(b)| == |multiset(SortNewestFirst(b))| == |multiset(files)|;
    } else {
      var c := CapCut(files);
      CapFallsIntoTie(files);
      CapCutIsAround(files);
      TieAt(c, CapTime(files), sorted, MAX_CANDIDATES);
      var picked, rest := OrderMakesChoice(files, files);
      var bPicked, bRest := OrderMakesChoice(files, b);
      ChoiceIsTied(c, CapTime(files), picked, rest);
      ChoiceIsTied(c, CapTime(files), bPicked, bRest);
    }
  }

  lemma TieAt(c: Cut, time: int, sorted: seq<Rollout>, at: nat)
    requires CutAround(c, time) && c.All() == sorted && |c.newer| <= at < |sorted|
    ensures at < |c.newer| + |c.tied| ==> sorted[at].mtime == time
  {
    assert at < |c.newer| + |c.tied| ==> sorted[at] == c.tied[at - |c.newer|] && sorted[at] in multiset(c.tied);
  }

  /** An unreadable file; its path tells it from the others. */
  function Unreadable(i: nat): Rollout {
    File(0, seq(i + 1, _ => 'x'), None)
  }

  function AllUnreadable(n: nat): (fs: seq<Rollout>)
    ensures |fs| == n && forall f :: f in fs ==> f.mtime == 0 && f.content.None?
  {
    seq(n, i requires 0 <= i => Unreadable(i))
  }

  const LOG: Rollout := File(0, "", Some([SessionMeta(Some("codex-tui"), Some("w"))]))

  lemma LogMatches()
    ensures ParsedFile(LOG, "w") != None
  {
    assert LOG.content.value[0].SessionMeta?;
  }

  lemma LogAnswers(others: seq<Rollout>)
    requires forall f :: f in others ==> f.content.None?
    ensures AnswerOf(multiset([LOG] + others), "w") != None
    ensures AnswerOf(multiset(others), "w") == None
  {
    hide AnswerOf, Alone, LOG;
    LogMatches();
    NoMatchInNothing("w");
    OneTiedMatch([], others, LOG, "w");
    NoTiedMatch(multiset([]), multiset(others), "w");
    NewerAnswer([], 0, "w");
    assert multiset([]) + multiset([LOG] + others) == multiset([LOG] + others);
    assert multiset([]) + multiset(others) == multiset(others);
  }

  /** Otherwise it may: 65 files of one time, one of them the log of the pane. Listed first it is read, listed last
      it is not. */
  lemma TieAcrossCapDecides() returns (a: seq<Rollout>, b: seq<Rollout>)
    ensures multiset(a) == multiset(b) && |a| == MAX_CANDIDATES + 1
    ensures forall i, j :: 0 <= i < j < |a| ==> a[i].path != a[j].path
    ensures AnswerOf(multiset(Capped(a)), "w") != None && AnswerOf(multiset(Capped(b)), "w") == None
  {
    hide AnswerOf, SortNewestFirst;
    var others := AllUnreadable(MAX_CANDIDATES);
    a, b := [LOG] + others, others + [LOG];
    assert forall i :: 0 <= i < |a| ==> |a[i].path| == i;
    SortedStays(a);
    SortedStays(b);
    var rest := others[..MAX_CANDIDATES - 1];
    assert Capped(a) == [LOG] + rest && Capped(b) == others;
    LogAnswers(rest);
    LogAnswers(others);
  }
}
