/** Attribution of a status-line side file to a pane by its working directory. The Claude and
    the agy readers are the same scan; they differ in what the session id is called. */
module Sidefile {
  import opened Wrappers
  import opened RecentFiles

  /** `id` is the session id (Claude) or the conversation id (agy). */
  datatype Sidefile<+T> = Sidefile(id: Option<string>, cwd: Option<string>, payload: T)

  /** A directory entry: is it named `*.json`, and what it parses to if it can be read and parsed. */
  datatype Entry<+T> = Entry(isJson: bool, parsed: Option<Sidefile<T>>)

  type Listed<T> = File<Entry<T>>

  predicate Matches<T>(f: Listed<T>, cwd: string) {
    f.content.isJson && f.content.parsed.Some? && f.content.parsed.value.cwd == Some(cwd)
  }

  function Id<T>(f: Listed<T>): Option<string> {
    if f.content.parsed.Some? then f.content.parsed.value.id else None
  }

  /** A match that may belong to another session: its id is missing or different. */
  predicate Rival<T>(c: Listed<T>, m: Listed<T>) {
    Id(c).None? || Id(c) != Id(m)
  }

  ghost function Matching<T>(fs: seq<Listed<T>>, cwd: string): seq<Listed<T>> {
    if fs == [] then []
    else
      var last := fs[|fs| - 1];
      Matching(fs[..|fs| - 1], cwd) + if Matches(last, cwd) then [last] else []
  }

  /** The exhaustive rule on the bag of matches: `m` is a newest match, and every other match that may
      belong to another session is at least a minute older. */
  ghost predicate Unrivalled<T>(ms: multiset<Listed<T>>, m: Listed<T>) {
    && m in ms
    && (forall c :: c in ms ==> c.mtime <= m.mtime)
    && forall c :: c in ms - multiset{m} && Rival(c, m) ==> m.mtime - c.mtime >= AMBIGUITY_WINDOW
  }

  ghost function Bag<T>(listing: seq<Listed<T>>, cwd: string): multiset<Listed<T>> {
    multiset(Matching(listing, cwd))
  }

  lemma {:induction false} MatchingCounts<T>(fs: seq<Listed<T>>, cwd: string, f: Listed<T>)
    ensures Bag(fs, cwd)[f] == if Matches(f, cwd) then multiset(fs)[f] else 0
  {
    if fs != [] {
      MatchingCounts(fs[..|fs| - 1], cwd, f);
      assert fs == fs[..|fs| - 1] + [fs[|fs| - 1]];
    }
  }

  /** The bag of matches does not depend on the order of the directory listing. */
  lemma BagIgnoresOrder<T>(a: seq<Listed<T>>, b: seq<Listed<T>>, cwd: string)
    requires multiset(a) == multiset(b)
    ensures Bag(a, cwd) == Bag(b, cwd)
  {
    forall f: Listed<T> | f in Bag(a, cwd) + Bag(b, cwd)
      ensures Bag(a, cwd)[f] == Bag(b, cwd)[f]
    {
      MatchingCounts(a, cwd, f);
      MatchingCounts(b, cwd, f);
    }
    assert forall f: Listed<T> :: f !in Bag(a, cwd) + Bag(b, cwd) ==> Bag(a, cwd)[f] == 0 == Bag(b, cwd)[f];
  }

  lemma {:induction false} MatchingKeepsOrder<T>(fs: seq<Listed<T>>, cwd: string)
    requires NewestFirst(fs)
    ensures NewestFirst(Matching(fs, cwd))
    ensures forall f :: f in Matching(fs, cwd) ==> f in fs && Matches(f, cwd)
  {
    if fs != [] {
      var init := fs[..|fs| - 1];
      MatchingKeepsOrder(init, cwd);
      assert forall f :: f in init ==> f in fs && f.mtime >= fs[|fs| - 1].mtime;
      assert forall f :: f in multiset(Matching(init, cwd)) ==> f in Matching(init, cwd);
      OldestLast(Matching(init, cwd), fs[|fs| - 1]);
    }
  }

  lemma EmptyMatchesNothing<T>(cwd: string)
    ensures Matching<T>([], cwd) == []
  {
  }

  lemma {:induction false} MatchingPrefix<T>(fs: seq<Listed<T>>, i: nat, cwd: string)
    requires i <= |fs|
    ensures Matching(fs[..i], cwd) <= Matching(fs, cwd)
  {
    if i == |fs| {
      assert fs[..i] == fs;
    } else {
      MatchingPrefix(fs[..|fs| - 1], i, cwd);
      assert fs[..|fs| - 1][..i] == fs[..i];
    }
  }

  lemma MatchingGrows<T>(fs: seq<Listed<T>>, i: nat, cwd: string)
    requires i < |fs|
    ensures Matching(fs[..i + 1], cwd) == Matching(fs[..i], cwd) + if Matches(fs[i], cwd) then [fs[i]] else []
    ensures Matching(fs[..i + 1], cwd) <= Matching(fs, cwd)
  {
    assert fs[..i + 1][..i] == fs[..i];
    MatchingPrefix(fs, i + 1, cwd);
  }

  /** All unrivalled files name the same session. */
  lemma UnrivalledNameOneSession<T>(ms: multiset<Listed<T>>, m: Listed<T>, n: Listed<T>)
    requires Unrivalled(ms, m) && Unrivalled(ms, n)
    ensures Id(m) == Id(n)
  {
    if m != n {
      assert n in ms - multiset{m};
    }
  }

  /** With the matches newest first, the rule needs to be checked for the first of them only. */
  lemma FirstIsUnrivalled<T>(ms: seq<Listed<T>>)
    requires ms != [] && NewestFirst(ms)
    ensures (exists m :: Unrivalled(multiset(ms), m)) <==> Unrivalled(multiset(ms), ms[0])
  {
    if m :| Unrivalled(multiset(ms), m) {
      var bag, first := multiset(ms), ms[0];
      assert first in ms && first.mtime == m.mtime;
      if m != first {
        assert first in bag - multiset{m};
        forall c | c in bag - multiset{first} && Rival(c, first)
          ensures first.mtime - c.mtime >= AMBIGUITY_WINDOW
        {
          assert c != m;
          assert c in bag - multiset{m};
        }
      }
    }
  }

  /** The position of the first match that may belong to another session than the first one. */
  ghost function FirstRival<T>(ms: seq<Listed<T>>): (k: nat)
    requires ms != []
    ensures 1 <= k <= |ms|
    ensures forall j :: 1 <= j < k ==> !Rival(ms[j], ms[0])
    ensures k < |ms| ==> Rival(ms[k], ms[0])
  {
    var n := |ms| - 1;
    if n == 0 then 1
    else if FirstRival(ms[..n]) < n then FirstRival(ms[..n])
    else if Rival(ms[n], ms[0]) then n
    else |ms|
  }

  lemma FirstRivalAt<T>(ms: seq<Listed<T>>, k: nat)
    requires ms != [] && 1 <= k <= |ms|
    requires forall j :: 1 <= j < k ==> !Rival(ms[j], ms[0])
    requires k < |ms| ==> Rival(ms[k], ms[0])
    ensures FirstRival(ms) == k
  {
    hide FirstRival;
  }

  /** The first rival in newest-first order decides. */
  lemma FirstRivalDecides<T>(ms: seq<Listed<T>>, k: nat)
    requires ms != [] && NewestFirst(ms) && 1 <= k <= |ms|
    requires forall j :: 1 <= j < k ==> !Rival(ms[j], ms[0])
    requires k < |ms| ==> Rival(ms[k], ms[0])
    ensures Unrivalled(multiset(ms), ms[0]) <==> k == |ms| || ms[0].mtime - ms[k].mtime >= AMBIGUITY_WINDOW
  {
    var bag := multiset(ms);
    if k < |ms| {
      OthersAt(ms, 0, ms[k]);
    }
    forall c | c in bag - multiset{ms[0]} && Rival(c, ms[0])
      ensures k < |ms| && c.mtime <= ms[k].mtime
    {
      OthersAt(ms, 0, c);
    }
    assert forall c :: c in bag ==> c in ms;
  }

  /** What the scan decides is the exhaustive rule. */
  lemma ScanDecides<T>(ms: seq<Listed<T>>)
    requires NewestFirst(ms)
    ensures (exists m :: Unrivalled(multiset(ms), m))
       <==> ms != [] && var k := FirstRival(ms); k == |ms| || ms[0].mtime - ms[k].mtime >= AMBIGUITY_WINDOW
    ensures (exists m :: Unrivalled(multiset(ms), m)) ==> Unrivalled(multiset(ms), ms[0])
  {
    if ms != [] {
      FirstIsUnrivalled(ms);
      FirstRivalDecides(ms, FirstRival(ms));
    }
  }

  /** The entries named `*.json`, in listing order. */
  ghost function JsonOnly<T>(listing: seq<Listed<T>>): seq<Listed<T>> {
    if listing == [] then []
    else
      var last := listing[|listing| - 1];
      JsonOnly(listing[..|listing| - 1]) + if last.content.isJson then [last] else []
  }

  /** The other entries can never match. */
  lemma {:induction false} JsonOnlyKeepsMatches<T>(listing: seq<Listed<T>>, cwd: string)
    ensures Matching(JsonOnly(listing), cwd) == Matching(listing, cwd)
    ensures forall f :: f in JsonOnly(listing) ==> f.content.isJson
  {
    if listing != [] {
      var init, last := listing[..|listing| - 1], listing[|listing| - 1];
      JsonOnlyKeepsMatches(init, cwd);
      if last.content.isJson {
        assert (JsonOnly(init) + [last])[..|JsonOnly(init)|] == JsonOnly(init);
      } else {
        assert JsonOnly(init) + [] == JsonOnly(init) && Matching(init, cwd) + [] == Matching(init, cwd);
      }
    }
  }

  method JsonFiles<T>(listing: seq<Listed<T>>) returns (candidates: seq<Listed<T>>)
    ensures candidates == JsonOnly(listing)
  {
    candidates := [];
    for i := 0 to |listing|
      invariant candidates == JsonOnly(listing[..i])
    {
      assert listing[..i + 1][..i] == listing[..i];
      if listing[i].content.isJson {
        candidates := candidates + [listing[i]];
      }
    }
    assert listing[..|listing|] == listing;
  }

  /** The matches in the order in which the scan meets them. */
  ghost function Met<T>(listing: seq<Listed<T>>, cwd: string): seq<Listed<T>> {
    Matching(SortNewestFirst(JsonOnly(listing)), cwd)
  }

  /** What is answered for a directory: the match met first, when it is unrivalled. */
  ghost function Answer<T>(listing: seq<Listed<T>>, cwd: string): Option<Sidefile<T>> {
    var ms := Met(listing, cwd);
    if ms != [] && Unrivalled(multiset(ms), ms[0]) then ms[0].content.parsed else None
  }

  lemma MetAreMatches<T>(listing: seq<Listed<T>>, cwd: string)
    ensures multiset(Met(listing, cwd)) == Bag(listing, cwd) && NewestFirst(Met(listing, cwd))
    ensures forall m :: m in Met(listing, cwd) ==> m.content.parsed.Some?
  {
    hide Matching, SortNewestFirst, JsonOnly;
    var candidates := JsonOnly(listing);
    JsonOnlyKeepsMatches(listing, cwd);
    BagIgnoresOrder(SortNewestFirst(candidates), candidates, cwd);
    MatchingKeepsOrder(SortNewestFirst(candidates), cwd);
  }

  /** Walks the candidates newest first, keeping at most two matches with distinct session ids: the first
      match, and the first rival of it. */
  method Scan<T>(sorted: seq<Listed<T>>, cwd: string) returns (distinct: seq<Listed<T>>)
    requires forall f :: f in sorted ==> f.content.isJson
    ensures var all := Matching(sorted, cwd);
            && |distinct| <= 2
            && (distinct == [] <==> all == [])
            && (distinct != [] ==> distinct[0] == all[0] && (|distinct| == 1 <==> FirstRival(all) == |all|))
            && (|distinct| == 2 ==> distinct[1] == all[FirstRival(all)])
  {
    hide Matching;
    ghost var all := Matching(sorted, cwd);
    EmptyMatchesNothing<T>(cwd);
    assert sorted[..0] == [];
    distinct := [];
    ghost var seen := 0;
    var i := 0;
    while i < |sorted| && |distinct| < 2
      invariant i <= |sorted| && |distinct| <= 2
      invariant seen <= |all| && Matching(sorted[..i], cwd) == all[..seen]
      invariant distinct == [] <==> seen == 0
      invariant distinct != [] ==> distinct[0] == all[0]
      invariant |distinct| == 1 ==> forall j :: 1 <= j < seen ==> !Rival(all[j], all[0])
      invariant |distinct| == 2 ==> seen >= 2 && distinct[1] == all[seen - 1] && Rival(all[seen - 1], all[0])
                                    && forall j :: 1 <= j < seen - 1 ==> !Rival(all[j], all[0])
    {
      var f := sorted[i];
      MatchingGrows(sorted, i, cwd);
      if f.content.parsed.Some? && f.content.parsed.value.cwd == Some(cwd) {
        var id := f.content.parsed.value.id;
        var isDistinct := id.None? || forall j :: 0 <= j < |distinct| ==> Id(distinct[j]) != id;
        if isDistinct {
          distinct := distinct + [f];
        }
        seen := seen + 1;
      }
      i := i + 1;
    }
    assert i == |sorted| ==> sorted[..i] == sorted;
    if distinct != [] {
      FirstRivalAt(all, if |distinct| == 2 then seen - 1 else |all|);
    }
  }

  /** `read_sidefile_for_path` and `read_agy_sidefile_for_path`: the early-stopping scan answers exactly
      when some match is unrivalled, and then with such a match. */
  method ReadSidefileForPath<T>(dir: Option<seq<Listed<T>>>, currentPath: string) returns (r: Option<Sidefile<T>>)
    ensures r.Some? <==> currentPath != "" && dir.Some? && exists m :: Unrivalled(Bag(dir.value, currentPath), m)
    ensures r.Some? ==> exists m :: Unrivalled(Bag(dir.value, currentPath), m) && m.content.parsed == r
    ensures r == if currentPath == "" || dir.None? then None else Answer(dir.value, currentPath)
  {
    hide Matching, SortNewestFirst, Unrivalled, Rival, JsonOnly;
    if currentPath == "" || dir.None? {
      return None;
    }
    var listing := dir.value;
    var candidates := JsonFiles(listing);
    var sorted := SortNewestFirst(candidates);
    JsonOnlyKeepsMatches(listing, currentPath);
    assert forall f :: f in sorted ==> f in multiset(candidates);
    ghost var all := Met(listing, currentPath);
    MetAreMatches(listing, currentPath);

    var distinct := Scan(sorted, currentPath);
    ScanDecides(all);
    if distinct == [] {
      return None;
    }
    if |distinct| == 2 && distinct[0].mtime - distinct[1].mtime < AMBIGUITY_WINDOW {
      return None;
    }
    assert all[0] in all;
    r := distinct[0].content.parsed;
  }

  /** Reordering the directory listing changes neither whether the scan answers nor which session it names:
      whatever files back the answers, they have one and the same id. */
  lemma ListingOrderIsIrrelevant<T>(a: seq<Listed<T>>, b: seq<Listed<T>>, cwd: string)
    requires multiset(a) == multiset(b)
    ensures (exists m :: Unrivalled(Bag(a, cwd), m)) <==> (exists m :: Unrivalled(Bag(b, cwd), m))
    ensures forall m, n :: Unrivalled(Bag(a, cwd), m) && Unrivalled(Bag(b, cwd), n) ==> Id(m) == Id(n)
  {
    hide Unrivalled, Bag;
    BagIgnoresOrder(a, b, cwd);
    forall m, n | Unrivalled(Bag(a, cwd), m) && Unrivalled(Bag(b, cwd), n)
      ensures Id(m) == Id(n)
    {
      UnrivalledNameOneSession(Bag(b, cwd), m, n);
    }
  }

  lemma MatchingConcat<T>(a: seq<Listed<T>>, m: Listed<T>, rest: seq<Listed<T>>, cwd: string)
    requires Matches(m, cwd) && forall f :: f in a ==> !Matches(f, cwd)
    ensures Matching(a + [m] + rest, cwd) != [] && Matching(a + [m] + rest, cwd)[0] == m
  {
    NoneMatch(a, cwd);
    var start := a + [m];
    assert start[..|a|] == a;
    MatchingPrefix(start + rest, |start|, cwd);
    assert (start + rest)[..|start|] == start;
  }

  lemma {:induction false} NoneMatch<T>(a: seq<Listed<T>>, cwd: string)
    requires forall f :: f in a ==> !Matches(f, cwd)
    ensures Matching(a, cwd) == []
  {
    if a != [] {
      NoneMatch(a[..|a| - 1], cwd);
    }
  }

  lemma JsonGrows<T>(fs: seq<Listed<T>>, last: Listed<T>)
    ensures JsonOnly(fs + [last]) == JsonOnly(fs) + if last.content.isJson then [last] else []
  {
    assert (fs + [last])[..|fs|] == fs;
  }

  lemma NoJson<T>()
    ensures JsonOnly<T>([]) == []
  {
  }

  lemma {:induction false} JsonFirst<T>(m: Listed<T>, rest: seq<Listed<T>>)
    requires m.content.isJson
    ensures JsonOnly([m] + rest) == [m] + JsonOnly(rest)
  {
    hide JsonOnly;
    NoJson<T>();
    if rest == [] {
      JsonGrows([], m);
      assert [m] + rest == [] + [m] == [m];
    } else {
      var init, last := rest[..|rest| - 1], rest[|rest| - 1];
      JsonFirst(m, init);
      JsonGrows([m] + init, last);
      JsonGrows(init, last);
      assert rest == init + [last];
      assert [m] + rest == [m] + init + [last];
    }
  }

  lemma UnrivalledMatches<T>(listing: seq<Listed<T>>, m: Listed<T>, cwd: string)
    requires Unrivalled(Bag(listing, cwd), m)
    ensures m in listing && Matches(m, cwd)
    ensures forall f :: f in listing && Matches(f, cwd) ==> f.mtime <= m.mtime
  {
    forall f: Listed<T>
      ensures f in Bag(listing, cwd) <==> f in listing && Matches(f, cwd)
    {
      MatchingCounts(listing, cwd, f);
      assert f in listing <==> f in multiset(listing);
    }
  }

  /** An unrivalled file that is listed first is met first. */
  lemma ListedFirstIsMet<T>(m: Listed<T>, rest: seq<Listed<T>>, cwd: string)
    requires Unrivalled(Bag([m] + rest, cwd), m)
    ensures Met([m] + rest, cwd) != [] && Met([m] + rest, cwd)[0] == m
  {
    hide Matching, SortNewestFirst, JsonOnly, Unrivalled, Matches;
    UnrivalledMatches([m] + rest, m, cwd);
    MetAreMatches([m] + rest, cwd);
    MatchIsJson(m, cwd);
    JsonFirst(m, rest);
    var sorted := SortNewestFirst([m] + JsonOnly(rest));
    var k := ListedFirstStaysFirst(m, JsonOnly(rest));
    UnrivalledMatches(sorted, m, cwd);
    assert forall f :: f in sorted[..k] ==> f in sorted && f.mtime > m.mtime;
    MatchingConcat(sorted[..k], m, sorted[k + 1..], cwd);
    assert sorted == sorted[..k] + [m] + sorted[k + 1..];
  }

  /** Some order of the listing answers with any given unrivalled file: the one in which it is listed first. */
  lemma AnyUnrivalledAnswers<T>(listing: seq<Listed<T>>, m: Listed<T>, cwd: string) returns (b: seq<Listed<T>>)
    requires Unrivalled(Bag(listing, cwd), m)
    ensures multiset(b) == multiset(listing) && Answer(b, cwd) == m.content.parsed
  {
    hide Met, Unrivalled, Bag, Matches;
    UnrivalledMatches(listing, m, cwd);
    var i :| 0 <= i < |listing| && listing[i] == m;
    var rest := Without(listing, i);
    b := [m] + rest;
    WithoutBag(listing, i);
    assert multiset(listing) == multiset{m} + multiset(rest) == multiset(b);
    BagIgnoresOrder(listing, b, cwd);
    MetAreMatches(b, cwd);
    ListedFirstIsMet(m, rest, cwd);
  }

  lemma MatchIsJson<T>(m: Listed<T>, cwd: string)
    requires Matches(m, cwd)
    ensures m.content.isJson
  {
  }

  /** The whole answer, payload included, is the same for every order of the listing exactly when all unrivalled files
      hold the same. */
  lemma AnswerIsOrderFreeIff<T>(listing: seq<Listed<T>>, cwd: string)
    ensures (forall b :: multiset(b) == multiset(listing) ==> Answer(b, cwd) == Answer(listing, cwd)) <==>
              forall m, n :: Unrivalled(Bag(listing, cwd), m) && Unrivalled(Bag(listing, cwd), n) ==>
                m.content.parsed == n.content.parsed
  {
    hide Unrivalled, Answer, Bag;
    forall b | multiset(b) == multiset(listing)
      ensures Answer(b, cwd).Some? <==> exists m :: Unrivalled(Bag(listing, cwd), m)
      ensures Answer(b, cwd).Some? ==>
                exists m :: Unrivalled(Bag(listing, cwd), m) && Answer(b, cwd) == m.content.parsed
    {
      AnswerIsUnrivalled(b, cwd);
      BagIgnoresOrder(listing, b, cwd);
    }
    forall m, n | Unrivalled(Bag(listing, cwd), m) && Unrivalled(Bag(listing, cwd), n)
      ensures (forall b :: multiset(b) == multiset(listing) ==> Answer(b, cwd) == Answer(listing, cwd)) ==>
                m.content.parsed == n.content.parsed
    {
      var a := AnyUnrivalledAnswers(listing, m, cwd);
      var b := AnyUnrivalledAnswers(listing, n, cwd);
    }
  }

  lemma AnswerIsUnrivalled<T>(listing: seq<Listed<T>>, cwd: string)
    ensures Answer(listing, cwd).Some? <==> exists m :: Unrivalled(Bag(listing, cwd), m)
    ensures Answer(listing, cwd).Some? ==>
              exists m :: Unrivalled(Bag(listing, cwd), m) && Answer(listing, cwd) == m.content.parsed
  {
    hide Unrivalled, Met, Bag;
    var ms := Met(listing, cwd);
    MetAreMatches(listing, cwd);
    if ms != [] {
      FirstIsUnrivalled(ms);
    } else {
      NoneUnrivalled<T>();
    }
  }

  lemma NoneUnrivalled<T>()
    ensures forall m: Listed<T> :: !Unrivalled(multiset([]), m)
  {
  }

  // ----- Directories of one and two files -----

  /** A file is a match exactly when it is a JSON file that parses and names the directory. */
  lemma OneFileAnswers<T>(f: Listed<T>, cwd: string)
    ensures Answer([f], cwd)
         == if f.content.isJson && f.content.parsed.Some? && f.content.parsed.value.cwd == Some(cwd)
            then f.content.parsed
            else None
  {
    MatchingOne(f, cwd);
    AnswerIsUnrivalled([f], cwd);
    if Matches(f, cwd) {
      assert multiset{f} - multiset{f} == multiset{};
      assert Unrivalled(Bag([f], cwd), f);
    } else {
      NoneUnrivalled<T>();
    }
  }

  lemma MatchingOne<T>(f: Listed<T>, cwd: string)
    ensures Matching([f], cwd) == if Matches(f, cwd) then [f] else []
  {
    assert [f][..0] == [];
  }

  /** Two files of the directory: the newer one answers when both name the same session, or the other is at least 60
      seconds older; a missing id counts as another session, even against another missing id. */
  lemma TwoFilesAnswer<T>(a: Listed<T>, b: Listed<T>, cwd: string)
    requires Matches(a, cwd) && Matches(b, cwd) && a.mtime > b.mtime
    ensures Answer([a, b], cwd)
         == if (a.content.parsed.value.id == b.content.parsed.value.id && a.content.parsed.value.id.Some?)
               || a.mtime - b.mtime >= 60_000_000_000
            then a.content.parsed
            else None
  {
    hide Met, Unrivalled, Answer, Matching, Matches, Rival;
    MatchingTwo(a, b, cwd);
    NewerIsUnrivalled(a, b);
    AnswerIsUnrivalled([a, b], cwd);
    RivalIff(a, b);
    assert Unrivalled(Bag([a, b], cwd), a) <==> (Rival(b, a) ==> a.mtime - b.mtime >= 60_000_000_000);
  }

  lemma MatchingTwo<T>(a: Listed<T>, b: Listed<T>, cwd: string)
    requires Matches(a, cwd) && Matches(b, cwd)
    ensures Bag([a, b], cwd) == multiset{a, b}
    ensures a.content.parsed.Some? && b.content.parsed.Some?
  {
    assert [a, b][..1] == [a];
    MatchingOne(a, cwd);
  }

  lemma NewerIsUnrivalled<T>(a: Listed<T>, b: Listed<T>)
    requires a.mtime > b.mtime
    ensures forall m :: Unrivalled(multiset{a, b}, m) <==>
              m == a && (Rival(b, a) ==> a.mtime - b.mtime >= 60_000_000_000)
  {
    assert multiset{a, b} - multiset{a} == multiset{b};
  }

  lemma RivalIff<T>(a: Listed<T>, b: Listed<T>)
    requires a.content.parsed.Some? && b.content.parsed.Some?
    ensures Rival(b, a) <==>
              !(a.content.parsed.value.id == b.content.parsed.value.id && a.content.parsed.value.id.Some?)
  {
  }
}
