/** Character and string tests shared by the parsers. A string is a sequence of
    Unicode scalar values. */
module Text {
  import opened Wrappers

  /** Unicode White_Space. */
  predicate IsSpace(c: char) {
    || '\t' <= c <= '\r'
    || c == ' '
    || c as int in {0x85, 0xA0, 0x1680, 0x2028, 0x2029, 0x202F, 0x205F, 0x3000}
    || 0x2000 <= c as int <= 0x200A
  }

  function TrimStart(s: string): string {
    if s != [] && IsSpace(s[0]) then TrimStart(s[1..]) else s
  }

  function TrimEnd(s: string): (r: string)
    ensures r <= s
    ensures r != [] ==> !IsSpace(r[|r| - 1])
    ensures forall i :: |r| <= i < |s| ==> IsSpace(s[i])
  {
    if s != [] && IsSpace(s[|s| - 1]) then TrimEnd(s[..|s| - 1]) else s
  }

  function Trim(s: string): string {
    TrimEnd(TrimStart(s))
  }

  function LowerAscii(c: char): char {
    if 'A' <= c <= 'Z' then c - 'A' + 'a' else c
  }

  function Lower(s: string): (r: string)
    ensures |r| == |s|
  {
    seq(|s|, i requires 0 <= i < |s| => LowerAscii(s[i]))
  }

  predicate StartsWith(s: string, prefix: string) {
    prefix <= s
  }

  predicate EndsWith(s: string, suffix: string) {
    |suffix| <= |s| && s[|s| - |suffix|..] == suffix
  }

  predicate Contains(s: string, part: string) {
    exists i :: 0 <= i <= |s| && part <= s[i..]
  }

  /** The pieces of `s` between occurrences of `c`; there is always at least one. */
  function SplitOn(s: string, c: char): (parts: seq<string>)
    ensures |parts| >= 1
    ensures forall p :: p in parts ==> c !in p
  {
    if s == [] then [[]]
    else
      var rest := SplitOn(s[1..], c);
      if s[0] == c then [[]] + rest else [[s[0]] + rest[0]] + rest[1..]
  }

  predicate Blank(s: string) {
    forall i :: 0 <= i < |s| ==> IsSpace(s[i])
  }

  /** The first position of `c`. */
  function Find(s: string, c: char): (at: Option<nat>)
    ensures at.Some? ==> at.value < |s| && s[at.value] == c && c !in s[..at.value]
    ensures at.None? ==> c !in s
  {
    if s == "" then None
    else if s[0] == c then Some(0)
    else
      var rest := Find(s[1..], c);
      assert s == [s[0]] + s[1..];
      if rest.Some? then
        assert s[..rest.value + 1] == [s[0]] + s[1..][..rest.value];
        Some(rest.value + 1)
      else None
  }

  predicate IsDigit(c: char) {
    '0' <= c <= '9'
  }

  predicate AllDigits(s: string) {
    forall i :: 0 <= i < |s| ==> IsDigit(s[i])
  }

  function Digits(s: string): nat
    requires AllDigits(s)
  {
    if s == "" then 0
    else
      assert IsDigit(s[|s| - 1]);
      10 * Digits(s[..|s| - 1]) + (s[|s| - 1] as int - '0' as int)
  }

  /** `str::parse::<u8>`: an optional plus sign and at least one digit, at most 255. */
  function ParseU8(s: string): Option<nat> {
    var d := if s != "" && s[0] == '+' then s[1..] else s;
    if d != "" && AllDigits(d) && Digits(d) <= 255 then Some(Digits(d)) else None
  }

  /** The first position where `part` occurs. */
  function FindStr(s: string, part: string): (at: Option<nat>)
    ensures at.Some? ==> at.value + |part| <= |s| && part <= s[at.value..]
  {
    if part <= s then Some(0)
    else if s == "" then None
    else
      var rest := FindStr(s[1..], part);
      if rest.Some? then
        assert s[1..][rest.value..] == s[rest.value + 1..];
        Some(rest.value + 1)
      else None
  }

  /** The pieces of `s` between occurrences of a non-empty separator. */
  function SplitOnStr(s: string, sep: string): (parts: seq<string>)
    requires sep != ""
    ensures |parts| >= 1
    decreases |s|
  {
    var at := FindStr(s, sep);
    if at.None? then [s]
    else [s[..at.value]] + SplitOnStr(s[at.value + |sep|..], sep)
  }

  /** The leading part of `s` without white space. */
  function Word(s: string): (w: string)
    ensures w <= s
    ensures s != "" && !IsSpace(s[0]) ==> w != "" && w[0] == s[0]
  {
    if s == "" || IsSpace(s[0]) then ""
    else
      assert s == [s[0]] + s[1..];
      [s[0]] + Word(s[1..])
  }

  /** `split_whitespace` */
  function Words(s: string): seq<string>
    decreases |s|
  {
    if s == "" then []
    else if IsSpace(s[0]) then Words(s[1..])
    else [Word(s)] + Words(s[|Word(s)|..])
  }

  lemma {:induction false} TrimStartKeeps(s: string, c: char)
    requires c in s && !IsSpace(c)
    ensures c in TrimStart(s)
  {
    if IsSpace(s[0]) {
      assert s == [s[0]] + s[1..];
      TrimStartKeeps(s[1..], c);
    }
  }

  /** Trimming removes white space only. */
  lemma TrimKeeps(s: string, c: char)
    requires c in s && !IsSpace(c)
    ensures c in Trim(s)
  {
    TrimStartKeeps(s, c);
    var t := TrimStart(s);
    var i :| 0 <= i < |t| && t[i] == c;
    assert i < |TrimEnd(t)|;
    assert TrimEnd(t)[i] == c;
  }

  // ----- The string tests in terms of concatenation -----

  /** The code points of Unicode White_Space. */
  lemma SpaceIff(c: char)
    ensures IsSpace(c) <==>
              c as int in {9, 10, 11, 12, 13, 32, 133, 160, 5760, 8192, 8193, 8194, 8195, 8196, 8197, 8198, 8199, 8200,
                           8201, 8202, 8232, 8233, 8239, 8287, 12288}
  {
  }

  /** Neither end is white space. */
  predicate Tight(t: string) {
    t != "" ==> !IsSpace(t[0]) && !IsSpace(t[|t| - 1])
  }

  lemma {:induction false} TrimStartIs(a: string, t: string)
    requires Blank(a) && (t != "" ==> !IsSpace(t[0]))
    ensures TrimStart(a + t) == t
  {
    if a == "" {
      assert a + t == t;
    } else {
      TrimStartIs(a[1..], t);
      assert (a + t)[1..] == a[1..] + t;
    }
  }

  lemma {:induction false} TrimEndIs(t: string, b: string)
    requires Blank(b) && (t != "" ==> !IsSpace(t[|t| - 1]))
    ensures TrimEnd(t + b) == t
  {
    if b == "" {
      assert t + b == t;
    } else {
      TrimEndIs(t, b[..|b| - 1]);
      assert (t + b)[..|t + b| - 1] == t + b[..|b| - 1];
    }
  }

  lemma {:induction false} TrimStartSplits(s: string) returns (a: string)
    ensures s == a + TrimStart(s) && Blank(a)
    ensures TrimStart(s) != "" ==> !IsSpace(TrimStart(s)[0])
  {
    a := "";
    if s != "" && IsSpace(s[0]) {
      var rest := TrimStartSplits(s[1..]);
      a := [s[0]] + rest;
      assert s == [s[0]] + s[1..];
    }
  }

  lemma TrimSplits(s: string) returns (a: string, b: string)
    ensures s == a + Trim(s) + b && Blank(a) && Blank(b) && Tight(Trim(s))
  {
    a := TrimStartSplits(s);
    b := TrimEndSplits(TrimStart(s));
    hide TrimStart, TrimEnd, IsSpace;
    var t := Trim(s);
    assert TrimStart(s) == t + b;
    assert t != "" ==> TrimStart(s)[0] == t[0];
  }

  lemma TrimEndSplits(s: string) returns (b: string)
    ensures s == TrimEnd(s) + b && Blank(b)
    ensures TrimEnd(s) != "" ==> !IsSpace(TrimEnd(s)[|TrimEnd(s)| - 1])
  {
    b := s[|TrimEnd(s)|..];
    assert s == TrimEnd(s) + b;
  }

  /** Trimming gives the part between the white space at both ends. */
  lemma TrimIff(s: string, t: string)
    ensures Trim(s) == t <==> Tight(t) && exists a, b :: s == a + t + b && Blank(a) && Blank(b)
  {
    hide TrimStart;
    var before, after := TrimSplits(s);
    if Tight(t) && exists a, b :: s == a + t + b && Blank(a) && Blank(b) {
      var a, b :| s == a + t + b && Blank(a) && Blank(b);
      TrimIs(a, t, b);
    }
  }

  lemma TrimIs(a: string, t: string, b: string)
    requires Tight(t) && Blank(a) && Blank(b)
    ensures Trim(a + t + b) == t
  {
    hide TrimStart, TrimEnd;
    if t == "" {
      assert Blank(a + t + b);
      TrimStartIs(a + t + b, "");
      assert a + t + b + "" == a + t + b;
      TrimEndIs("", "");
      assert "" + "" == "";
    } else {
      TrimStartIs(a, t + b);
      assert a + (t + b) == a + t + b;
      TrimEndIs(t, b);
    }
  }

  lemma LowerAt(s: string, i: nat)
    requires i < |s|
    ensures Lower(s)[i] as int == if 65 <= s[i] as int <= 90 then s[i] as int + 32 else s[i] as int
  {
  }

  lemma StartsWithIff(s: string, p: string)
    ensures StartsWith(s, p) <==> exists b :: s == p + b
  {
    if StartsWith(s, p) {
      assert s == p + s[|p|..];
    }
  }

  lemma EndsWithIff(s: string, p: string)
    ensures EndsWith(s, p) <==> exists a :: s == a + p
  {
    if EndsWith(s, p) {
      assert s == s[..|s| - |p|] + p;
    }
  }

  lemma ContainsIff(s: string, p: string)
    ensures Contains(s, p) <==> exists a, b :: s == a + p + b
  {
    if i :| 0 <= i <= |s| && p <= s[i..] {
      assert s == s[..i] + p + s[i + |p|..];
    }
    if a, b :| s == a + p + b {
      assert s[|a|..] == p + b;
    }
  }

  lemma {:induction false} SplitOnAppend(a: string, b: string, c: char)
    requires c !in a
    ensures SplitOn(a + [c] + b, c) == [a] + SplitOn(b, c)
  {
    if a == "" {
      assert ([c] + b)[1..] == b;
      assert a + [c] + b == [c] + b;
    } else {
      assert a[0] in a && forall x :: x in a[1..] ==> x in a;
      SplitOnAppend(a[1..], b, c);
      assert [a[0]] + a[1..] == a;
      assert ([a[1..]] + SplitOn(b, c))[1..] == SplitOn(b, c);
      assert (a + [c] + b)[1..] == a[1..] + [c] + b;
    }
  }

  lemma {:induction false} SplitOnAbsent(a: string, c: char)
    requires c !in a
    ensures SplitOn(a, c) == [a]
  {
    if a != "" {
      assert a[0] in a && forall x :: x in a[1..] ==> x in a;
      SplitOnAbsent(a[1..], c);
      assert [a[0]] + a[1..] == a;
    }
  }

  lemma DigitIff(c: char)
    ensures IsDigit(c) <==> 48 <= c as int <= 57
  {
  }

  function Decimal(n: nat): string {
    if n < 10 then [(48 + n) as char] else Decimal(n / 10) + [(48 + n % 10) as char]
  }

  function Zeros(k: nat): string {
    seq(k, _ => '0')
  }

  lemma {:induction false} DecimalDigits(n: nat, k: nat)
    ensures AllDigits(Zeros(k) + Decimal(n)) && Digits(Zeros(k) + Decimal(n)) == n
  {
    var d := Zeros(k) + Decimal(n);
    if n < 10 {
      assert d[..|d| - 1] == Zeros(k);
      ZeroDigits(k);
    } else {
      DecimalDigits(n / 10, k);
      assert d[..|d| - 1] == Zeros(k) + Decimal(n / 10);
    }
  }

  lemma {:induction false} ZeroDigits(k: nat)
    ensures AllDigits(Zeros(k)) && Digits(Zeros(k)) == 0
  {
    if k > 0 {
      ZeroDigits(k - 1);
      assert Zeros(k)[..k - 1] == Zeros(k - 1);
    }
  }

  /** Every digit string is the decimal notation of its value, behind zeros. */
  lemma {:induction false} DigitsAreDecimal(d: string) returns (k: nat)
    requires d != "" && AllDigits(d)
    ensures d == Zeros(k) + Decimal(Digits(d))
  {
    var init, last := d[..|d| - 1], d[|d| - 1];
    var digit := last as int - 48;
    assert IsDigit(last) && d == init + [last];
    if init == "" {
      k := 0;
    } else {
      var j := DigitsAreDecimal(init);
      assert Digits(d) == 10 * Digits(init) + digit;
      if Digits(init) == 0 {
        k := j + 1;
        assert init == Zeros(j) + "0" == Zeros(j + 1);
      } else {
        k := j;
        assert Digits(d) / 10 == Digits(init) && Digits(d) % 10 == digit;
      }
    }
  }

  lemma ParseU8Reads(s: string)
    ensures var d := if s != "" && s[0] == '+' then s[1..] else s;
            if d != "" && AllDigits(d) then ParseU8(s) == if Digits(d) <= 255 then Some(Digits(d)) else None
            else ParseU8(s) == None
  {
    hide Digits;
  }

  /** A number from 0 to 255 in decimal notation, behind an optional plus sign and zeros, and nothing else. */
  lemma ParseU8Iff(s: string, n: nat)
    ensures ParseU8(s) == Some(n) <==>
              n <= 255 && exists k :: s == Zeros(k) + Decimal(n) || s == "+" + (Zeros(k) + Decimal(n))
  {
    hide Decimal, Digits, ParseU8;
    var d := if s != "" && s[0] == '+' then s[1..] else s;
    ParseU8Reads(s);
    if ParseU8(s) == Some(n) {
      var k := DigitsAreDecimal(d);
      assert s == d || s == "+" + d;
    }
    if k :| s == Zeros(k) + Decimal(n) || s == "+" + (Zeros(k) + Decimal(n)) {
      DecimalDigits(n, k);
      DecimalIsSome(n);
      assert d == Zeros(k) + Decimal(n) by {
        assert IsDigit((Zeros(k) + Decimal(n))[0]);
      }
    }
  }

  lemma DecimalIsSome(n: nat)
    ensures Decimal(n) != ""
  {
  }

  /** `p` starts at `i` and nowhere before. */
  ghost predicate FirstAt(s: string, p: string, i: nat) {
    i <= |s| && p <= s[i..] && forall j :: 0 <= j < i ==> !(p <= s[j..])
  }

  lemma FirstAtTail(s: string, p: string, i: nat)
    requires 0 < i <= |s|
    ensures FirstAt(s, p, i) <==> !(p <= s) && FirstAt(s[1..], p, i - 1)
  {
    assert forall j :: 0 < j <= |s| ==> s[j..] == s[1..][j - 1..];
    assert s[0..] == s;
    assert forall j :: 0 <= j < i - 1 ==> s[1..][j..] == s[j + 1..];
  }

  /** The first occurrence is found, and nothing exactly when there is none. */
  lemma {:induction false} FindStrIff(s: string, p: string, i: nat)
    ensures FindStr(s, p) == Some(i) <==> FirstAt(s, p, i)
  {
    hide FirstAt;
    FirstAtStart(s, p, i);
    if 0 < i <= |s| {
      FirstAtTail(s, p, i);
      FindStrIff(s[1..], p, i - 1);
    }
  }

  lemma FirstAtStart(s: string, p: string, i: nat)
    ensures FirstAt(s, p, 0) <==> p <= s
    ensures FirstAt(s, p, i) ==> i <= |s|
  {
    assert s[0..] == s;
  }

  lemma SplitOnStrAppend(a: string, b: string, sep: string)
    requires sep != "" && FirstAt(a + sep + b, sep, |a|)
    ensures SplitOnStr(a + sep + b, sep) == [a] + SplitOnStr(b, sep)
  {
    hide FindStr, FirstAt;
    var s := a + sep + b;
    FindStrIff(s, sep, |a|);
    assert s[..|a|] == a && s[|a| + |sep|..] == b;
  }

  lemma SplitOnStrAbsent(s: string, sep: string)
    requires sep != "" && !Contains(s, sep)
    ensures SplitOnStr(s, sep) == [s]
  {
    FoundIsContained(s, sep);
  }

  lemma FoundIsContained(s: string, p: string)
    ensures FindStr(s, p).Some? ==> Contains(s, p)
  {
  }

  predicate IsWord(w: string) {
    w != "" && forall i :: 0 <= i < |w| ==> !IsSpace(w[i])
  }

  lemma {:induction false} WordIs(w: string, rest: string)
    requires IsWord(w) && (rest != "" ==> IsSpace(rest[0]))
    ensures Word(w + rest) == w
  {
    hide IsSpace;
    assert (w + rest)[0] == w[0] && (w + rest)[1..] == w[1..] + rest;
    if |w| > 1 {
      WordIs(w[1..], rest);
    } else {
      assert w[1..] + rest == rest && w == [w[0]];
    }
  }

  /** A word in front of white space or the end is the first word. */
  lemma WordsStep(w: string, rest: string)
    requires IsWord(w) && (rest != "" ==> IsSpace(rest[0]))
    ensures Words(w + rest) == [w] + Words(rest)
  {
    hide IsSpace;
    WordIs(w, rest);
    assert (w + rest)[|w|..] == rest;
  }

  lemma {:induction false} WordsSkip(gap: string, s: string)
    requires Blank(gap)
    ensures Words(gap + s) == Words(s)
  {
    hide IsSpace;
    if gap == "" {
      assert gap + s == s;
    } else {
      WordsSkip(gap[1..], s);
      assert (gap + s)[1..] == gap[1..] + s;
    }
  }

  /** Splitting at any separator. */
  lemma {:induction false} SplitOnConcat(a: string, b: string, c: char)
    ensures SplitOn(a + [c] + b, c) == SplitOn(a, c) + SplitOn(b, c)
  {
    hide SplitOn;
    if c !in a {
      SplitOnAbsent(a, c);
      SplitOnAppend(a, b, c);
    } else {
      var i := Find(a, c).value;
      var x, y := a[..i], a[i + 1..];
      assert a == x + [c] + y;
      SplitOnConcat(y, b, c);
      SplitOnAppend(x, y, c);
      SplitOnAppend(x, y + [c] + b, c);
      assert a + [c] + b == x + [c] + (y + [c] + b);
    }
  }

  predicate NoCapitals(w: string) {
    forall i :: 0 <= i < |w| ==> !(65 <= w[i] as int <= 90)
  }

  /** `c` is the lower-case letter `l`, or its capital. */
  predicate IsLetter(c: char, l: char) {
    c == l || (65 <= c as int <= 90 && c as int + 32 == l as int)
  }

  /** `s` spells the lower-case word `w`, up to the case of ASCII letters. */
  predicate Spells(s: string, w: string) {
    |s| == |w| && forall i :: 0 <= i < |w| ==> IsLetter(s[i], w[i])
  }

  lemma SpellsIff(s: string, w: string)
    requires NoCapitals(w)
    ensures Lower(s) == w <==> Spells(s, w)
  {
    if Spells(s, w) {
      assert forall i :: 0 <= i < |s| ==> Lower(s)[i] == w[i];
    }
    if Lower(s) == w {
      assert forall i :: 0 <= i < |s| ==> Lower(s)[i] == LowerAscii(s[i]) == w[i];
    }
  }

  predicate MentionsAt(s: string, w: string, i: nat) {
    i + |w| <= |s| && Spells(s[i..i + |w|], w)
  }

  /** The word `w` occurs in `s`, up to the case of ASCII letters. */
  predicate Mentions(s: string, w: string) {
    exists i: nat :: i <= |s| && MentionsAt(s, w, i)
  }

  lemma MentionsIff(s: string, w: string)
    requires NoCapitals(w)
    ensures Contains(Lower(s), w) <==> Mentions(s, w)
  {
    hide NoCapitals, Spells;
    forall i: nat | i <= |s|
      ensures w <= Lower(s)[i..] <==> MentionsAt(s, w, i)
    {
      if i + |w| <= |s| {
        var part := s[i..i + |w|];
        SpellsIff(part, w);
        assert Lower(s)[i..][..|w|] == Lower(part);
      }
    }
  }

  /** The first letter of a mentioned word occurs. */
  lemma MentionsFirst(s: string, w: string)
    requires w != "" && Mentions(s, w)
    ensures exists i :: 0 <= i < |s| && IsLetter(s[i], w[0])
  {
    var i: nat :| i <= |s| && MentionsAt(s, w, i);
    assert s[i] == s[i..i + |w|][0];
  }

  lemma {:induction false} FirstIsFound(s: string, c: char, at: nat)
    requires at < |s| && s[at] == c && c !in s[..at]
    ensures Find(s, c) == Some(at)
  {
    if at > 0 {
      assert s[..at] == [s[0]] + s[1..][..at - 1];
      FirstIsFound(s[1..], c, at - 1);
    }
  }
}
