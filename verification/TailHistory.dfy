/** The rolling tail history of a pane and the comparison behind stillness. */
module TailHistory {
  import opened Text

  const STILLNESS_WINDOW_MIN: nat := 2
  const STILLNESS_WINDOW_MAX: nat := 12

  function Clamp(capacity: nat): nat {
    if capacity < STILLNESS_WINDOW_MIN then STILLNESS_WINDOW_MIN
    else if capacity > STILLNESS_WINDOW_MAX then STILLNESS_WINDOW_MAX
    else capacity
  }

  lemma ClampIs(capacity: nat)
    ensures 2 <= capacity <= 12 ==> Clamp(capacity) == capacity
    ensures capacity < 2 ==> Clamp(capacity) == 2
    ensures capacity > 12 ==> Clamp(capacity) == 12
  {
  }

  // ----- Normalization -----

  function WithoutReturn(s: string): string {
    if EndsWith(s, "\r") then s[..|s| - 1] else s
  }

  /** `str::lines`: a final line without terminator counts unless empty, and a carriage return is
      dropped only in front of a line feed. */
  function Lines(s: string): seq<string> {
    var parts := SplitOn(s, '\n');
    var last := parts[|parts| - 1];
    var ended := seq(|parts| - 1, i requires 0 <= i < |parts| - 1 => WithoutReturn(parts[i]));
    if last == "" then ended else ended + [last]
  }

  /** A line ends at a line feed, and loses one carriage return in front of it. */
  lemma LineEnds(a: string, rest: string)
    requires '\n' !in a
    ensures Lines(a + ['\n'] + rest)
         == [if a != "" && a[|a| - 1] == '\r' then a[..|a| - 1] else a] + Lines(rest)
  {
    hide SplitOn, WithoutReturn;
    SplitOnAppend(a, rest, '\n');
    ReturnIsDropped(a);
    var l, r := Lines(a + ['\n'] + rest), [WithoutReturn(a)] + Lines(rest);
    assert |l| == |r| && forall i :: 0 <= i < |l| ==> l[i] == r[i];
  }

  lemma ReturnIsDropped(a: string)
    ensures WithoutReturn(a) == if a != "" && a[|a| - 1] == '\r' then a[..|a| - 1] else a
  {
    if a != "" {
      assert a[|a| - 1..] == [a[|a| - 1]];
    }
  }

  /** The last line needs no line feed, and counts unless it is empty. */
  lemma LastLine(a: string)
    requires '\n' !in a
    ensures Lines(a) == if a == "" then [] else [a]
  {
    SplitOnAbsent(a, '\n');
  }

  function TrimLines(ls: seq<string>): (r: seq<string>)
    ensures |r| == |ls|
  {
    seq(|ls|, i requires 0 <= i < |ls| => TrimEnd(ls[i]))
  }

  function DropTrailingEmpty(ls: seq<string>): (r: seq<string>)
    ensures r <= ls && (r != [] ==> r[|r| - 1] != "")
    ensures forall i :: |r| <= i < |ls| ==> ls[i] == ""
  {
    if ls != [] && ls[|ls| - 1] == "" then DropTrailingEmpty(ls[..|ls| - 1]) else ls
  }

  function JoinLines(ls: seq<string>): string {
    if ls == [] then ""
    else if |ls| == 1 then ls[0]
    else ls[0] + "\n" + JoinLines(ls[1..])
  }

  function Normalized(s: string): string {
    JoinLines(DropTrailingEmpty(TrimLines(Lines(s))))
  }

  /** `PaneTailHistory::normalize` */
  method Normalize(s: string) returns (r: string)
    ensures r == Normalized(s)
  {
    var lines := TrimLines(Lines(s));
    ghost var all := lines;
    while lines != [] && lines[|lines| - 1] == ""
      invariant DropTrailingEmpty(lines) == DropTrailingEmpty(all)
    {
      lines := lines[..|lines| - 1];
    }
    r := JoinLines(lines);
  }

  /** Line `i` of a tail without its trailing white space; lines past the end read as empty. */
  function VisibleLine(s: string, i: nat): string {
    var parts := SplitOn(s, '\n');
    if i < |parts| then TrimEnd(parts[i]) else ""
  }

  lemma TrimEndDropsCarriageReturn(s: string)
    requires EndsWith(s, "\r")
    ensures TrimEnd(s[..|s| - 1]) == TrimEnd(s)
  {
  }

  lemma VisibleLines(s: string)
    ensures var ls := DropTrailingEmpty(TrimLines(Lines(s)));
            forall i: nat :: VisibleLine(s, i) == if i < |ls| then ls[i] else ""
  {
    hide SplitOn, TrimEnd, DropTrailingEmpty;
    var parts := SplitOn(s, '\n');
    var ls := TrimLines(Lines(s));
    forall i: nat
      ensures VisibleLine(s, i) == if i < |ls| then ls[i] else ""
    {
      if i < |parts| - 1 && EndsWith(parts[i], "\r") {
        TrimEndDropsCarriageReturn(parts[i]);
      }
    }
  }

  lemma {:induction false} SplitUndoesJoin(ls: seq<string>)
    requires ls != [] && forall l :: l in ls ==> '\n' !in l
    ensures SplitOn(JoinLines(ls), '\n') == ls
  {
    if |ls| == 1 {
      SplitOnAbsent(ls[0], '\n');
    } else {
      SplitUndoesJoin(ls[1..]);
      SplitOnAppend(ls[0], JoinLines(ls[1..]), '\n');
    }
  }

  lemma VisibleLineHasNoBreak(s: string, i: nat)
    ensures '\n' !in VisibleLine(s, i)
    ensures TrimEnd(VisibleLine(s, i)) == VisibleLine(s, i)
  {
    var parts := SplitOn(s, '\n');
    if i < |parts| {
      assert parts[i] in parts;
    }
  }

  /** Normalization keeps every visible line. */
  lemma NormalizedKeepsLines(s: string, i: nat)
    ensures VisibleLine(Normalized(s), i) == VisibleLine(s, i)
  {
    VisibleLines(s);
    var ls := DropTrailingEmpty(TrimLines(Lines(s)));
    forall l | l in ls
      ensures '\n' !in l && TrimEnd(l) == l
    {
      var j: nat :| j < |ls| && ls[j] == l;
      VisibleLineHasNoBreak(s, j);
      assert VisibleLine(s, j) == l;
    }
    if ls == [] {
      SplitOnAbsent("", '\n');
    } else {
      SplitUndoesJoin(ls);
    }
  }

  lemma SameLinesNormalizeAlike(s: string, t: string)
    requires forall i: nat :: VisibleLine(s, i) == VisibleLine(t, i)
    ensures Normalized(s) == Normalized(t)
  {
    hide SplitOn, TrimEnd, DropTrailingEmpty, TrimLines, Lines, VisibleLine, JoinLines;
    VisibleLines(s);
    VisibleLines(t);
    var ls := DropTrailingEmpty(TrimLines(Lines(s)));
    var lt := DropTrailingEmpty(TrimLines(Lines(t)));
    assert ls != [] ==> VisibleLine(s, |ls| - 1) != "";
    assert lt != [] ==> VisibleLine(t, |lt| - 1) != "";
    assert forall i: nat :: i < |ls| ==> VisibleLine(s, i) == ls[i];
    assert ls == lt;
  }

  /** Two tails normalize alike exactly when they show the same lines, where trailing white space
      and trailing blank lines do not show. */
  lemma NormalizedEqualIff(s: string, t: string)
    ensures Normalized(s) == Normalized(t) <==> forall i: nat :: VisibleLine(s, i) == VisibleLine(t, i)
  {
    hide VisibleLine, Normalized;
    if Normalized(s) == Normalized(t) {
      forall i: nat
        ensures VisibleLine(s, i) == VisibleLine(t, i)
      {
        NormalizedKeepsLines(s, i);
        NormalizedKeepsLines(t, i);
      }
    }
    if forall i: nat :: VisibleLine(s, i) == VisibleLine(t, i) {
      SameLinesNormalizeAlike(s, t);
    }
  }

  lemma NormalizeIsIdempotent(s: string)
    ensures Normalized(Normalized(s)) == Normalized(s)
  {
    forall i: nat
      ensures VisibleLine(Normalized(s), i) == VisibleLine(s, i)
    {
      NormalizedKeepsLines(s, i);
    }
    NormalizedEqualIff(Normalized(s), s);
  }

  // ----- The history -----

  /** The last `n` items of `s`, or all of them when there are fewer. */
  function LastN<T>(s: seq<T>, n: nat): seq<T> {
    if |s| <= n then s else s[|s| - n..]
  }

  /** The last `window` tails exist and normalize alike. */
  ghost predicate Still(tails: seq<string>, window: nat) {
    && 0 < window <= |tails|
    && forall i, j :: |tails| - window <= i < |tails| && |tails| - window <= j < |tails| ==>
          Normalized(tails[i]) == Normalized(tails[j])
  }

  class PaneTailHistory {
    var snapshots: seq<string>
    const capacity: nat

    ghost predicate Valid()
      reads this
    {
      STILLNESS_WINDOW_MIN <= capacity <= STILLNESS_WINDOW_MAX && |snapshots| <= capacity
    }

    constructor (capacity: nat)
      ensures Valid() && snapshots == []
      ensures this.capacity == if capacity < 2 then 2 else if capacity > 12 then 12 else capacity
    {
      this.capacity := Clamp(capacity);
      snapshots := [];
    }

    method Push(tail: string)
      requires Valid()
      modifies this
      ensures Valid() && snapshots == LastN(old(snapshots) + [tail], capacity)
    {
      if |snapshots| == capacity {
        snapshots := snapshots[1..];
      }
      snapshots := snapshots + [tail];
    }

    method IsStill(window: nat) returns (still: bool)
      ensures still <==> Still(snapshots, window)
    {
      hide Normalized;
      if |snapshots| < window || window == 0 {
        return false;
      }
      var i := |snapshots| - window;
      var first := Normalize(snapshots[i]);
      var from := i;
      still := true;
      while still && i < |snapshots|
        invariant from <= i <= |snapshots|
        invariant still ==> forall j :: from <= j < i ==> Normalized(snapshots[j]) == first
        invariant !still ==> exists j :: from <= j < |snapshots| && Normalized(snapshots[j]) != first
      {
        var next := Normalize(snapshots[i]);
        still := next == first;
        i := i + 1;
      }
    }

    method ChangedWithinCapacity() returns (changed: bool)
      ensures changed <==> ChangedWithin(snapshots, capacity)
    {
      hide Normalized;
      var window := if capacity < |snapshots| then capacity else |snapshots|;
      if window >= 2 {
        var still := IsStill(window);
        changed := !still;
      } else {
        changed := false;
      }
    }
  }

  /** At least two of the last `capacity` tails exist and some two of them differ. */
  ghost predicate ChangedWithin(tails: seq<string>, capacity: nat) {
    var window := LastN(tails, capacity);
    |window| >= 2 && exists i, j :: 0 <= i < j < |window| && Normalized(window[i]) != Normalized(window[j])
  }

  /** Keeping the last `n` at each push keeps the last `n` of everything pushed. */
  lemma LastNPush<T>(s: seq<T>, x: T, n: nat)
    requires n > 0
    ensures LastN(LastN(s, n) + [x], n) == LastN(s + [x], n)
  {
  }
}
