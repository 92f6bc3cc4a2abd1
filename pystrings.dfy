/** The few operations on Python `str` values that the plugin relies on,
    with Python's semantics: `startswith`, `endswith`, `replace` (all
    occurrences, or the first one), `split` with an explicit separator,
    `splitlines` and `upper`. */
module PyStrings {

  predicate StartsWith(s: string, prefix: string)
  {
    |prefix| <= |s| && s[..|prefix|] == prefix
  }

  predicate EndsWith(s: string, suffix: string)
  {
    |suffix| <= |s| && s[|s| - |suffix|..] == suffix
  }

  /** `pat` occurs in `s` starting at position `i`. */
  predicate OccursAt(s: string, pat: string, i: nat)
  {
    i + |pat| <= |s| && s[i..i + |pat|] == pat
  }

  /** `s.replace(pat, rep)`: every non-overlapping occurrence of `pat`,
      scanning from the left, is replaced by `rep`. */
  function ReplaceAll(s: string, pat: string, rep: string): string
    requires |pat| > 0
    decreases |s|
  {
    if |s| < |pat| then s
    else if s[..|pat|] == pat then rep + ReplaceAll(s[|pat|..], pat, rep)
    else [s[0]] + ReplaceAll(s[1..], pat, rep)
  }

  /** `s.replace(pat, rep, 1)`: only the leftmost occurrence is replaced. */
  function ReplaceFirst(s: string, pat: string, rep: string): (r: string)
    requires |pat| > 0
    ensures (forall i: nat :: !OccursAt(s, pat, i)) ==> r == s
    ensures OccursAt(s, pat, 0) ==> r == rep + s[|pat|..]
    decreases |s|
  {
    if |s| < |pat| then s
    else if s[..|pat|] == pat then assert OccursAt(s, pat, 0); rep + s[|pat|..]
    else
      var rest := ReplaceFirst(s[1..], pat, rep);
      assert forall i: nat :: OccursAt(s[1..], pat, i) ==> OccursAt(s, pat, i + 1);
      [s[0]] + rest
  }

  /** `s.split(sep)` for a non-empty separator: the pieces between the
      occurrences of `sep` found from the left; never an empty list. */
  function Split(s: string, sep: string): (r: seq<string>)
    requires |sep| > 0
    ensures |r| >= 1
    decreases |s|
  {
    if |s| < |sep| then [s]
    else if s[..|sep|] == sep then [""] + Split(s[|sep|..], sep)
    else
      var rest := Split(s[1..], sep);
      [[s[0]] + rest[0]] + rest[1..]
  }

  /** `sep.join(parts)`. */
  function Join(parts: seq<string>, sep: string): string
  {
    if |parts| == 0 then ""
    else if |parts| == 1 then parts[0]
    else parts[0] + sep + Join(parts[1..], sep)
  }

  /** The last element of a list, Python's `xs[-1]`. */
  function Last<T>(xs: seq<T>): T
    requires |xs| > 0
  {
    xs[|xs| - 1]
  }

  /** The line boundaries `str.splitlines` recognises (`\r\n` is handled
      by `SplitLines` as a single boundary). */
  predicate IsLineBreak(c: char)
  {
    c == '\n' || c == '\r' || c == '\U{000B}' || c == '\U{000C}' || c == '\U{001C}'
    || c == '\U{001D}' || c == '\U{001E}' || c == '\U{0085}' || c == '\U{2028}' || c == '\U{2029}'
  }

  /** `s.splitlines()`: the lines of `s` without their terminators; a
      final terminator does not start an extra empty line. */
  function SplitLines(s: string): (r: seq<string>)
    ensures s == "" <==> r == []
    ensures forall i :: 0 <= i < |r| ==> forall c :: c in r[i] ==> !IsLineBreak(c)
    decreases |s|
  {
    if s == "" then []
    else if IsLineBreak(s[0]) then
      var skip := if s[0] == '\r' && |s| > 1 && s[1] == '\n' then 2 else 1;
      [""] + SplitLines(s[skip..])
    else
      var rest := SplitLines(s[1..]);
      if rest == [] then [[s[0]]] else [[s[0]] + rest[0]] + rest[1..]
  }

  function UpperChar(c: char): char
  {
    if 'a' <= c <= 'z' then (c as int - 'a' as int + 'A' as int) as char else c
  }

  /** `s.upper()` on ASCII letters; every other character is kept. */
  function Upper(s: string): (r: string)
    ensures |r| == |s|
    ensures forall i :: 0 <= i < |s| ==> r[i] == UpperChar(s[i])
  {
    seq(|s|, i requires 0 <= i < |s| => UpperChar(s[i]))
  }

  // ---------------------------------------------------------------------
  // Properties

  /** Splitting and joining with the same separator gives back the string. */
  lemma {:induction false} JoinSplit(s: string, sep: string)
    requires |sep| > 0
    ensures Join(Split(s, sep), sep) == s
    decreases |s|
  {
    if |s| < |sep| {
    } else if s[..|sep|] == sep {
      var rest := Split(s[|sep|..], sep);
      JoinSplit(s[|sep|..], sep);
      assert Split(s, sep) == [""] + rest;
      JoinCons("", rest, sep);
      assert s == sep + s[|sep|..];
    } else {
      var rest := Split(s[1..], sep);
      JoinSplit(s[1..], sep);
      JoinHeadChar(s[0], rest, sep);
      assert s == [s[0]] + s[1..];
    }
  }

  lemma JoinCons(p: string, rest: seq<string>, sep: string)
    requires |rest| >= 1
    ensures Join([p] + rest, sep) == p + sep + Join(rest, sep)
  {
    assert ([p] + rest)[1..] == rest;
  }

  lemma JoinHeadChar(c: char, rest: seq<string>, sep: string)
    requires |rest| >= 1
    ensures Join([[c] + rest[0]] + rest[1..], sep) == [c] + Join(rest, sep)
  {
    if |rest| == 1 {
    } else {
      assert ([[c] + rest[0]] + rest[1..])[1..] == rest[1..];
      assert rest == [rest[0]] + rest[1..];
      JoinCons(rest[0], rest[1..], sep);
    }
  }

  /** With a one-character separator no piece contains that character. */
  lemma {:induction false} SplitPiecesAvoidSeparator(s: string, c: char)
    ensures forall i :: 0 <= i < |Split(s, [c])| ==> c !in Split(s, [c])[i]
    decreases |s|
  {
    if |s| < 1 {
    } else if s[..1] == [c] {
      SplitPiecesAvoidSeparator(s[1..], c);
    } else {
      SplitPiecesAvoidSeparator(s[1..], c);
      assert s[0] != c;
    }
  }

  /** `s.replace(pat, rep)` is `rep.join(s.split(pat))`: replacing is
      splitting at the occurrences and gluing the pieces back with `rep`. */
  lemma {:induction false} ReplaceIsJoinOfSplit(s: string, pat: string, rep: string)
    requires |pat| > 0
    ensures ReplaceAll(s, pat, rep) == Join(Split(s, pat), rep)
    decreases |s|
  {
    if |s| < |pat| {
    } else if s[..|pat|] == pat {
      ReplaceIsJoinOfSplit(s[|pat|..], pat, rep);
      JoinCons("", Split(s[|pat|..], pat), rep);
    } else {
      ReplaceIsJoinOfSplit(s[1..], pat, rep);
      JoinHeadChar(s[0], Split(s[1..], pat), rep);
    }
  }

  /** A string without `pat` is left as it is by `replace`. */
  lemma {:induction false} ReplaceAbsent(s: string, pat: string, rep: string)
    requires |pat| > 0
    requires forall i: nat :: !OccursAt(s, pat, i)
    ensures ReplaceAll(s, pat, rep) == s
    decreases |s|
  {
    if |s| < |pat| {
    } else {
      assert !OccursAt(s, pat, 0);
      forall i: nat ensures !OccursAt(s[1..], pat, i) {
        assert !OccursAt(s, pat, i + 1);
        if i + |pat| <= |s| - 1 {
          assert s[1..][i..i + |pat|] == s[i + 1..i + 1 + |pat|];
        }
      }
      ReplaceAbsent(s[1..], pat, rep);
    }
  }

  /** Upper-casing never introduces a character that is not a lower-case
      ASCII letter's image, so characters outside `a`-`z`/`A`-`Z` survive
      exactly where they were. */
  lemma UpperKeepsNonLetters(s: string, c: char)
    requires !('a' <= c <= 'z') && !('A' <= c <= 'Z')
    ensures c in Upper(s) <==> c in s
  {
    if c in Upper(s) {
      var i :| 0 <= i < |s| && Upper(s)[i] == c;
      assert s[i] == c;
    }
    if c in s {
      var i :| 0 <= i < |s| && s[i] == c;
      assert Upper(s)[i] == c;
    }
  }

  /** A string without line boundaries is a single line. */
  lemma {:induction false} SplitLinesOfOneLine(s: string)
    requires s != "" && forall c :: c in s ==> !IsLineBreak(c)
    ensures SplitLines(s) == [s]
    decreases |s|
  {
    assert s[0] in s;
    if |s| > 1 {
      assert forall c :: c in s[1..] ==> c in s;
      SplitLinesOfOneLine(s[1..]);
      assert [s[0]] + s[1..] == s;
    } else {
      assert [s[0]] == s;
    }
  }

  /** A line ended by a single-character line break is the first line, and
      the lines of the rest follow it. */
  lemma {:induction false} SplitLinesAfterBreak(a: string, c: char, b: string)
    requires forall x :: x in a ==> !IsLineBreak(x)
    requires IsLineBreak(c) && (c == '\r' ==> b == [] || b[0] != '\n')
    ensures SplitLines(a + [c] + b) == [a] + SplitLines(b)
    decreases |a|
  {
    var s := a + [c] + b;
    if a == [] {
      assert s[0] == c && s[1..] == b;
    } else {
      assert s[1..] == a[1..] + [c] + b;
      assert forall x :: x in a[1..] ==> x in a;
      assert a[0] in a;
      SplitLinesAfterBreak(a[1..], c, b);
      assert [a[0]] + a[1..] == a;
    }
  }

  /** `\r\n` ends one line, not two. */
  lemma {:induction false} SplitLinesAfterCrLf(a: string, b: string)
    requires forall x :: x in a ==> !IsLineBreak(x)
    ensures SplitLines(a + "\r\n" + b) == [a] + SplitLines(b)
    decreases |a|
  {
    var s := a + "\r\n" + b;
    if a == [] {
      assert s[0] == '\r' && s[1] == '\n' && s[2..] == b;
    } else {
      assert s[1..] == a[1..] + "\r\n" + b;
      assert forall x :: x in a[1..] ==> x in a;
      assert a[0] in a;
      SplitLinesAfterCrLf(a[1..], b);
      assert [a[0]] + a[1..] == a;
    }
  }

  /** `replace(pat, rep, 1)` replaces the leftmost occurrence of `pat`,
      wherever it starts, and keeps the rest. */
  lemma {:induction false} ReplaceFirstAt(s: string, pat: string, rep: string, i: nat)
    requires |pat| > 0 && OccursAt(s, pat, i)
    requires forall j: nat :: j < i ==> !OccursAt(s, pat, j)
    ensures ReplaceFirst(s, pat, rep) == s[..i] + rep + s[i + |pat|..]
    decreases i
  {
    if i > 0 {
      var t := s[1..];
      OccursInTail(s, pat, i - 1);
      NoEarlierInTail(s, pat, i);
      ReplaceFirstAt(t, pat, rep, i - 1);
      ReplaceFirstPastHead(s, pat, rep);
      calc {
        ReplaceFirst(s, pat, rep);
        [s[0]] + ReplaceFirst(t, pat, rep);
        [s[0]] + (t[..i - 1] + rep + t[i - 1 + |pat|..]);
        { ReplaceInTail(s, i, |pat|, rep); }
        s[..i] + rep + s[i + |pat|..];
      }
    }
  }

  /** Putting the head back in front of a replacement made in the tail. */
  lemma ReplaceInTail(s: string, i: nat, k: nat, rep: string)
    requires 0 < i && i + k <= |s|
    ensures [s[0]] + (s[1..][..i - 1] + rep + s[1..][i - 1 + k..]) == s[..i] + rep + s[i + k..]
  {
    assert [s[0]] + s[1..][..i - 1] == s[..i];
    assert s[1..][i - 1 + k..] == s[i + k..];
  }

  /** No occurrence before `i` means none before `i - 1` in the tail. */
  lemma NoEarlierInTail(s: string, pat: string, i: nat)
    requires |s| > 0 && i > 0
    requires forall j: nat :: j < i ==> !OccursAt(s, pat, j)
    ensures forall j: nat :: j < i - 1 ==> !OccursAt(s[1..], pat, j)
  {
    forall j: nat | j < i - 1
      ensures !OccursAt(s[1..], pat, j)
    {
      OccursInTail(s, pat, j);
    }
  }

  /** An occurrence in the tail is an occurrence one position further on. */
  lemma OccursInTail(s: string, pat: string, j: nat)
    requires |s| > 0
    ensures OccursAt(s[1..], pat, j) <==> OccursAt(s, pat, j + 1)
  {
    if j + 1 + |pat| <= |s| {
      assert s[1..][j..j + |pat|] == s[j + 1..j + 1 + |pat|];
    }
  }

  lemma ReplaceFirstPastHead(s: string, pat: string, rep: string)
    requires |pat| > 0 && |s| > 0 && !OccursAt(s, pat, 0)
    ensures ReplaceFirst(s, pat, rep) == [s[0]] + ReplaceFirst(s[1..], pat, rep)
  {
    if |s| < |pat| {
      assert |s[1..]| < |pat|;
      assert [s[0]] + s[1..] == s;
    }
  }

  /** A string that lacks the first character of `pat` does not contain `pat`. */
  lemma ReplaceWithoutFirstChar(s: string, pat: string, rep: string)
    requires |pat| > 0 && pat[0] !in s
    ensures ReplaceAll(s, pat, rep) == s
  {
    forall i: nat ensures !OccursAt(s, pat, i) {
      if i + |pat| <= |s| {
        assert s[i..i + |pat|][0] == s[i];
      }
    }
    ReplaceAbsent(s, pat, rep);
  }

  /** The first occurrence of `pat` is the one after a stretch `a` that
      does not hold the first character of `pat`. */
  lemma {:induction false} ReplaceAfter(a: string, pat: string, rep: string, b: string)
    requires |pat| > 0 && pat[0] !in a
    ensures ReplaceAll(a + pat + b, pat, rep) == a + rep + ReplaceAll(b, pat, rep)
    decreases |a|
  {
    var s := a + pat + b;
    if a == [] {
      assert s == pat + b;
      ReplaceAllAtHead(pat, rep, b);
    } else {
      var t := a[1..] + pat + b;
      calc {
        ReplaceAll(s, pat, rep);
        { assert s == [a[0]] + t; }
        ReplaceAll([a[0]] + t, pat, rep);
        { ReplaceAllPastHead(a[0], t, pat, rep); }
        [a[0]] + ReplaceAll(t, pat, rep);
        { ReplaceAfter(a[1..], pat, rep, b); }
        [a[0]] + (a[1..] + rep + ReplaceAll(b, pat, rep));
        { assert [a[0]] + a[1..] == a; }
        a + rep + ReplaceAll(b, pat, rep);
      }
    }
  }

  lemma ReplaceAllAtHead(pat: string, rep: string, b: string)
    requires |pat| > 0
    ensures ReplaceAll(pat + b, pat, rep) == rep + ReplaceAll(b, pat, rep)
  {
    var s := pat + b;
    assert s[..|pat|] == pat && s[|pat|..] == b;
  }

  lemma ReplaceAllPastHead(c: char, t: string, pat: string, rep: string)
    requires |pat| > 0 && c != pat[0]
    ensures ReplaceAll([c] + t, pat, rep) == [c] + ReplaceAll(t, pat, rep)
  {
    var s := [c] + t;
    if |s| >= |pat| {
      assert s[..|pat|] != pat by { assert s[..|pat|][0] == c; }
    }
    assert s[1..] == t;
  }

  /** Splitting at the first separator, when the text before it has none. */
  lemma {:induction false} SplitAfter(a: string, c: char, b: string)
    requires c !in a
    ensures Split(a + [c] + b, [c]) == [a] + Split(b, [c])
    decreases |a|
  {
    var s := a + [c] + b;
    if a == [] {
      assert s[..1] == [c] && s[1..] == b;
    } else {
      assert s[..1] != [c] by { assert s[0] == a[0]; }
      assert s[1..] == a[1..] + [c] + b;
      SplitAfter(a[1..], c, b);
      assert [a[0]] + a[1..] == a;
    }
  }

  /** A string without the separator is one piece. */
  lemma {:induction false} SplitWithoutSeparator(a: string, c: char)
    requires c !in a
    ensures Split(a, [c]) == [a]
    decreases |a|
  {
    if |a| >= 1 {
      assert a[..1] != [c] by { assert a[..1][0] == a[0]; }
      SplitWithoutSeparator(a[1..], c);
      assert [a[0]] + a[1..] == a;
    }
  }

  /** Every character of a piece of `s.split(c)` is a character of `s`. */
  lemma {:induction false} SplitPiecesWithin(s: string, c: char)
    ensures forall i, x :: 0 <= i < |Split(s, [c])| && x in Split(s, [c])[i] ==> x in s
    decreases |s|
  {
    if |s| >= 1 {
      SplitPiecesWithin(s[1..], c);
      assert forall x :: x in s[1..] ==> x in s;
    }
  }

  /** The last piece after a separator is the last piece of what follows
      that separator. */
  lemma {:induction false} SplitLastAfter(a: string, c: char, b: string)
    ensures |Split(a + [c] + b, [c])| >= 2
    ensures Last(Split(a + [c] + b, [c])) == Last(Split(b, [c]))
    decreases |a|
  {
    var s := a + [c] + b;
    if a == [] {
      assert s[..1] == [c] && s[1..] == b;
    } else {
      assert s[1..] == a[1..] + [c] + b;
      SplitLastAfter(a[1..], c, b);
    }
  }
}
