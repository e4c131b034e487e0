/** Candidate files newest first, and the 60-second rule that refuses to choose between
    two sessions active at the same time. */
module RecentFiles {
  /** A file of a directory listing. Times are nanoseconds; an unreadable time is the epoch. */
  datatype File<+T> = File(mtime: int, path: string, content: T)

  /** `AMBIGUITY_WINDOW`: 60 seconds. */
  const AMBIGUITY_WINDOW: int := 60_000_000_000

  ghost predicate NewestFirst<T>(fs: seq<File<T>>) {
    forall i, j :: 0 <= i < j < |fs| ==> fs[i].mtime >= fs[j].mtime
  }

  function Without<T>(s: seq<T>, k: nat): seq<T>
    requires k < |s|
  {
    s[..k] + s[k + 1..]
  }

  lemma WithoutBag<T>(s: seq<T>, k: nat)
    requires k < |s|
    ensures multiset(s) - multiset{s[k]} == multiset(Without(s, k))
  {
    assert s == s[..k] + [s[k]] + s[k + 1..];
  }

  lemma WithoutKeeps<T>(s: seq<T>, k: nat, j: nat)
    requires k < |s| && j < |s| && j != k
    ensures s[j] in Without(s, k)
  {
    assert Without(s, k)[if j < k then j else j - 1] == s[j];
  }

  /** The items at other positions than `k`. */
  lemma OthersAt<T>(s: seq<T>, k: nat, x: T)
    requires k < |s|
    ensures x in multiset(s) - multiset{s[k]} <==> exists j :: 0 <= j < |s| && j != k && s[j] == x
  {
    hide Without;
    WithoutBag(s, k);
    assert x in multiset(Without(s, k)) <==> x in Without(s, k);
    if j :| 0 <= j < |s| && j != k && s[j] == x {
      WithoutKeeps(s, k, j);
    }
    if x in Without(s, k) {
      var j := WithoutHas(s, k, x);
    }
  }

  lemma WithoutHas<T>(s: seq<T>, k: nat, x: T) returns (j: nat)
    requires k < |s| && x in Without(s, k)
    ensures j < |s| && j != k && s[j] == x
  {
    var i :| 0 <= i < |s| - 1 && Without(s, k)[i] == x;
    j := if i < k then i else i + 1;
  }

  lemma OldestLast<T>(fs: seq<File<T>>, last: File<T>)
    requires NewestFirst(fs) && forall f :: f in multiset(fs) ==> f.mtime >= last.mtime
    ensures NewestFirst(fs + [last])
  {
    assert forall i :: 0 <= i < |fs| ==> fs[i] in multiset(fs);
  }

  /** After the files that are at least as new. */
  function Insert<T>(fs: seq<File<T>>, f: File<T>): seq<File<T>> {
    if fs == [] || fs[|fs| - 1].mtime >= f.mtime then fs + [f]
    else Insert(fs[..|fs| - 1], f) + [fs[|fs| - 1]]
  }

  lemma {:induction false} InsertAdds<T>(fs: seq<File<T>>, f: File<T>)
    ensures multiset(Insert(fs, f)) == multiset(fs) + multiset{f}
  {
    if fs != [] && fs[|fs| - 1].mtime < f.mtime {
      InsertAdds(fs[..|fs| - 1], f);
      assert fs == fs[..|fs| - 1] + [fs[|fs| - 1]];
    }
  }

  lemma {:induction false} InsertKeepsOrder<T>(fs: seq<File<T>>, f: File<T>)
    requires NewestFirst(fs)
    ensures NewestFirst(Insert(fs, f))
  {
    if fs != [] && fs[|fs| - 1].mtime < f.mtime {
      var init, last := fs[..|fs| - 1], fs[|fs| - 1];
      InsertKeepsOrder(init, f);
      InsertAdds(init, f);
      assert forall g :: g in multiset(init) ==> g in init;
      OldestLast(Insert(init, f), last);
    }
  }

  /** The stable sort by modification time, newest first. */
  function SortNewestFirst<T>(fs: seq<File<T>>): (r: seq<File<T>>)
    ensures NewestFirst(r) && multiset(r) == multiset(fs)
  {
    if fs == [] then []
    else
      var init, last := fs[..|fs| - 1], fs[|fs| - 1];
      assert fs == init + [last];
      InsertAdds(SortNewestFirst(init), last);
      InsertKeepsOrder(SortNewestFirst(init), last);
      Insert(SortNewestFirst(init), last)
  }

  lemma InsertOldest<T>(fs: seq<File<T>>, f: File<T>)
    requires fs == [] || fs[|fs| - 1].mtime >= f.mtime
    ensures Insert(fs, f) == fs + [f]
  {
  }

  /** A listing that is newest first stays as it is. */
  lemma {:induction false} SortedStays<T>(fs: seq<File<T>>)
    requires NewestFirst(fs)
    ensures SortNewestFirst(fs) == fs
  {
    hide Insert;
    if fs != [] {
      var init, last := fs[..|fs| - 1], fs[|fs| - 1];
      SortedStays(init);
      InsertOldest(init, last);
      assert fs == init + [last];
    }
  }

  /** The files before `f` in `s` are newer than it. */
  ghost predicate BehindNewer<T>(s: seq<File<T>>, f: File<T>, k: nat) {
    k < |s| && s[k] == f && forall i :: 0 <= i < k ==> s[i].mtime > f.mtime
  }

  lemma {:induction false} InsertStaysBehind<T>(s: seq<File<T>>, f: File<T>, k: nat, x: File<T>) returns (n: nat)
    requires NewestFirst(s) && BehindNewer(s, f, k)
    ensures BehindNewer(Insert(s, x), f, n)
  {
    var init, last := s[..|s| - 1], s[|s| - 1];
    if last.mtime >= x.mtime {
      n := k;
    } else if k < |init| {
      n := InsertStaysBehind(init, f, k, x);
    } else {
      InsertAdds(init, x);
      n := k + 1;
      assert |Insert(init, x)| == |multiset(Insert(init, x))| == |init| + 1;
      forall i | 0 <= i < n
        ensures Insert(s, x)[i].mtime > f.mtime
      {
        assert Insert(init, x)[i] in multiset(init) + multiset{x};
        assert forall g :: g in multiset(init) ==> g in init;
      }
    }
  }

  lemma SortGrows<T>(s: seq<File<T>>, x: File<T>)
    ensures SortNewestFirst(s + [x]) == Insert(SortNewestFirst(s), x)
  {
    hide Insert;
    assert (s + [x])[..|s|] == s;
  }

  lemma SortOne<T>(f: File<T>)
    ensures SortNewestFirst([f]) == [f]
  {
    assert [f][..0] == [];
    assert SortNewestFirst<T>([]) == [];
  }

  /** The sort is stable: a file listed first stands behind newer files only. */
  lemma {:induction false} ListedFirstStaysFirst<T>(f: File<T>, rest: seq<File<T>>) returns (k: nat)
    ensures BehindNewer(SortNewestFirst([f] + rest), f, k)
  {
    hide SortNewestFirst, Insert;
    if rest == [] {
      SortOne(f);
      assert [f] + rest == [f];
      k := 0;
    } else {
      var init, last := rest[..|rest| - 1], rest[|rest| - 1];
      var j := ListedFirstStaysFirst(f, init);
      assert [f] + rest == [f] + init + [last];
      SortGrows([f] + init, last);
      k := InsertStaysBehind(SortNewestFirst([f] + init), f, j, last);
    }
  }
}
