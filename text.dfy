/**
 * The string primitives the configuration code is built from: trimming,
 * splitting on a separator, and ASCII case mapping and character
 * replacement, together with `Join`, the inverse of splitting that the round
 * trips are stated with. Strings are sequences of characters; whitespace and
 * case are restricted to ASCII.
 */
module Text {
  import opened Wrappers

  /** ASCII whitespace as `char::is_whitespace` classifies it: space and U+0009..U+000D. */
  const Whitespace: set<char> := {' ', '\t', '\n', '\U{000B}', '\U{000C}', '\r'}

  predicate AllMatch(s: string, cs: set<char>) {
    forall i :: 0 <= i < |s| ==> s[i] in cs
  }

  // ---------------------------------------------------------------------------
  // Trimming
  // ---------------------------------------------------------------------------

  /**
   * `r` is what is left of `s` once a prefix `s[..a]` and a suffix, both made
   * only of characters in `cs`, are cut off.
   */
  ghost predicate StripsTo(s: string, a: int, r: string, cs: set<char>) {
    0 <= a && a + |r| <= |s| && s[a..a + |r|] == r
    && (forall i :: 0 <= i < a ==> s[i] in cs)
    && (forall i :: a + |r| <= i < |s| ==> s[i] in cs)
  }

  /** Neither end of `r` is in `cs`. */
  predicate Bare(r: string, cs: set<char>) {
    r == [] || (r[0] !in cs && r[|r| - 1] !in cs)
  }

  /** The index of the first character of `s` at or after `k` that is not in `cs`, or `|s|`. */
  function SkipFrom(s: string, cs: set<char>, k: nat): (a: nat)
    requires k <= |s|
    ensures k <= a <= |s| && (a < |s| ==> s[a] !in cs)
    ensures forall i :: k <= i < a ==> s[i] in cs
    decreases |s| - k
  {
    if k == |s| || s[k] !in cs then k else SkipFrom(s, cs, k + 1)
  }

  /** The index just past the last character of `s[lo..e]` that is not in `cs`, or `lo`. */
  function SkipBackFrom(s: string, cs: set<char>, lo: nat, e: nat): (b: nat)
    requires lo <= e <= |s|
    ensures lo <= b <= e && (lo < b ==> s[b - 1] !in cs)
    ensures forall i :: b <= i < e ==> s[i] in cs
    decreases e
  {
    if e == lo || s[e - 1] !in cs then e else SkipBackFrom(s, cs, lo, e - 1)
  }

  /** Where the text kept by TrimMatches starts in `s`. */
  function TrimStart(s: string, cs: set<char>): nat {
    SkipFrom(s, cs, 0)
  }

  /** Removes every leading and every trailing character in `cs` (`str::trim_matches`). */
  function TrimMatches(s: string, cs: set<char>): (r: string)
    ensures |r| <= |s|
    ensures Bare(r, cs)
  {
    var a := SkipFrom(s, cs, 0);
    var e := SkipBackFrom(s, cs, a, |s|);
    assert forall i :: a <= i < e ==> s[a..e][i - a] == s[i];
    s[a..e]
  }

  /** What TrimMatches keeps is `s` with a matching prefix and a matching suffix cut off. */
  lemma TrimMatchesStrips(s: string, cs: set<char>)
    ensures StripsTo(s, TrimStart(s, cs), TrimMatches(s, cs), cs)
  {
    var a := SkipFrom(s, cs, 0);
    var e := SkipBackFrom(s, cs, a, |s|);
    assert TrimMatches(s, cs) == s[a..e];
  }

  /** `str::trim`: removes leading and trailing whitespace. */
  function Trim(s: string): string {
    TrimMatches(s, Whitespace)
  }

  /** Every part trimmed. */
  function TrimAll(parts: seq<string>): (r: seq<string>)
    ensures |r| == |parts| && forall i :: 0 <= i < |parts| ==> r[i] == Trim(parts[i])
  {
    seq(|parts|, i requires 0 <= i < |parts| => Trim(parts[i]))
  }

  /** The characterisation TrimMatchesStrips states, with bare ends, determines the result. */
  lemma TrimMatchesUnique(s: string, a: int, r: string, cs: set<char>)
    requires StripsTo(s, a, r, cs) && Bare(r, cs)
    ensures TrimMatches(s, cs) == r
  {
    var t := TrimMatches(s, cs);
    var b := TrimStart(s, cs);
    if r != [] && t != [] {
      // the first and the last character that do not match fix both ends
      assert s[a] == r[0] && s[b] == t[0];
      assert s[a + |r| - 1] == r[|r| - 1] && s[b + |t| - 1] == t[|t| - 1];
    }
  }

  /** Padding made of matching characters on either side does not change the result. */
  lemma TrimMatchesPadded(pre: string, s: string, post: string, cs: set<char>)
    requires AllMatch(pre, cs) && AllMatch(post, cs)
    ensures TrimMatches(pre + s + post, cs) == TrimMatches(s, cs)
  {
    var r := TrimMatches(s, cs);
    var a := TrimStart(s, cs);
    var x := pre + s + post;
    assert x[|pre| + a..|pre| + a + |r|] == s[a..a + |r|];
    assert x[..|pre| + a] == pre + s[..a];
    assert x[|pre| + a + |r|..] == s[a + |r|..] + post;
    assert StripsTo(x, |pre| + a, r, cs);
    TrimMatchesUnique(x, |pre| + a, r, cs);
  }

  lemma TrimMatchesLeftPadded(pre: string, s: string, cs: set<char>)
    requires AllMatch(pre, cs)
    ensures TrimMatches(pre + s, cs) == TrimMatches(s, cs)
  {
    assert pre + s + [] == pre + s;
    TrimMatchesPadded(pre, s, [], cs);
  }

  lemma TrimMatchesRightPadded(s: string, post: string, cs: set<char>)
    requires AllMatch(post, cs)
    ensures TrimMatches(s + post, cs) == TrimMatches(s, cs)
  {
    assert [] + s + post == s + post;
    TrimMatchesPadded([], s, post, cs);
  }

  /** A character that does not match is kept, shifted by what was stripped from the front. */
  lemma TrimMatchesKeepsAt(s: string, i: nat, cs: set<char>)
    requires i < |s| && s[i] !in cs
    ensures var a, t := TrimStart(s, cs), TrimMatches(s, cs);
      a <= i < a + |t| && t[i - a] == s[i] && t[..i - a] == s[a..i]
  {
    var a, t := TrimStart(s, cs), TrimMatches(s, cs);
    TrimMatchesStrips(s, cs);
    assert t == s[a..a + |t|];
  }

  /** A character missing from a prefix is missing from every slice of it. */
  lemma NotInSlice(s: string, c: char, lo: nat, hi: nat)
    requires lo <= hi <= |s| && c !in s[..hi]
    ensures c !in s[lo..hi]
  {
    assert forall k :: lo <= k < hi ==> s[k] == s[..hi][k];
  }

  /** What precedes a kept character in the trimmed text trims to what precedes it in `s`. */
  lemma TrimMatchesBefore(s: string, i: nat, cs: set<char>)
    requires i < |s| && s[i] !in cs
    ensures var a, t := TrimStart(s, cs), TrimMatches(s, cs);
      a <= i < a + |t| && TrimMatches(t[..i - a], cs) == TrimMatches(s[..i], cs)
  {
    var a, t := TrimStart(s, cs), TrimMatches(s, cs);
    TrimMatchesStrips(s, cs);
    TrimMatchesKeepsAt(s, i, cs);
    assert s[..i] == s[..a] + s[a..i];
    TrimMatchesLeftPadded(s[..a], s[a..i], cs);
  }

  /** What follows a kept character in the trimmed text trims to what follows it in `s`. */
  lemma TrimMatchesAfter(s: string, i: nat, cs: set<char>)
    requires i < |s| && s[i] !in cs
    ensures var a, t := TrimStart(s, cs), TrimMatches(s, cs);
      a <= i < a + |t| && TrimMatches(t[i - a + 1..], cs) == TrimMatches(s[i + 1..], cs)
  {
    var a, t := TrimStart(s, cs), TrimMatches(s, cs);
    TrimMatchesStrips(s, cs);
    TrimMatchesKeepsAt(s, i, cs);
    var e := a + |t|;
    assert t[i - a + 1..] == s[i + 1..e];
    assert s[i + 1..] == s[i + 1..e] + s[e..];
    TrimMatchesRightPadded(s[i + 1..e], s[e..], cs);
  }

  /** A string whose ends do not match is left as it is. */
  lemma TrimMatchesBare(s: string, cs: set<char>)
    requires Bare(s, cs)
    ensures TrimMatches(s, cs) == s
  {
    assert s[..0] == [] && s[|s|..] == [] && s[0..|s|] == s;
    TrimMatchesUnique(s, 0, s, cs);
  }

  /** Trimming keeps every character that does not match, and adds none. */
  lemma TrimMatchesKeeps(s: string, cs: set<char>, c: char)
    ensures c in TrimMatches(s, cs) ==> c in s
    ensures c !in cs ==> (c in s <==> c in TrimMatches(s, cs))
  {
    var r := TrimMatches(s, cs);
    var a := TrimStart(s, cs);
    assert s == s[..a] + r + s[a + |r|..];
  }

  /** The first character that survives trimming is the first one of `s` that does not match. */
  lemma TrimMatchesFirst(s: string, cs: set<char>, a: nat)
    requires a < |s| && s[a] !in cs
    requires forall i :: 0 <= i < a ==> s[i] in cs
    ensures TrimMatches(s, cs) != [] && TrimMatches(s, cs)[0] == s[a]
  {
    var r := TrimMatches(s, cs);
    var b := TrimStart(s, cs);
  }

  // ---------------------------------------------------------------------------
  // Splitting and joining
  // ---------------------------------------------------------------------------

  /** `sep` occurs in `s` starting at index `i`. */
  predicate OccursAt(s: string, sep: string, i: int) {
    0 <= i && i + |sep| <= |s| && s[i..i + |sep|] == sep
  }

  predicate Contains(s: string, sep: string) {
    exists i :: 0 <= i <= |s| && OccursAt(s, sep, i)
  }

  /** Index of the first occurrence of `sep` in `s` at or after `k`. */
  function FindFrom(s: string, sep: string, k: nat): (r: Option<nat>)
    requires sep != [] && k <= |s|
    ensures r.Some? ==> k <= r.value && OccursAt(s, sep, r.value)
    ensures r.Some? ==> forall j :: k <= j < r.value ==> !OccursAt(s, sep, j)
    ensures r.None? ==> forall j :: k <= j ==> !OccursAt(s, sep, j)
    decreases |s| - k
  {
    if k + |sep| > |s| then None
    else if OccursAt(s, sep, k) then Some(k)
    else FindFrom(s, sep, k + 1)
  }

  /** Index of the first occurrence of `sep` in `s`. */
  function Find(s: string, sep: string): (r: Option<nat>)
    requires sep != []
    ensures r.Some? ==> OccursAt(s, sep, r.value)
    ensures r.Some? ==> forall j :: 0 <= j < r.value ==> !OccursAt(s, sep, j)
    ensures r.None? ==> !Contains(s, sep)
  {
    FindFrom(s, sep, 0)
  }

  lemma PrefixSnoc<T>(s: seq<T>, n: nat)
    requires 0 < n <= |s|
    ensures s[..n] == s[..n - 1] + [s[n - 1]]
  {
  }

  /**
   * The parts with `sep` between consecutive ones: the reference definition
   * that splitting undoes, used to write values out in the round trips.
   */
  function Join(parts: seq<string>, sep: string): string {
    if parts == [] then ""
    else if |parts| == 1 then parts[0]
    else parts[0] + sep + Join(parts[1..], sep)
  }

  /** `str::split` with a string pattern: the pieces between the non-overlapping occurrences of `sep`, left to right. */
  function Split(s: string, sep: string): (parts: seq<string>)
    requires sep != []
    ensures |parts| >= 1
    ensures Join(parts, sep) == s
    ensures forall i :: 0 <= i < |parts| ==> !Contains(parts[i], sep)
    decreases |s|
  {
    match Find(s, sep)
    case None => [s]
    case Some(i) =>
      var rest := Split(s[i + |sep|..], sep);
      assert s[..i] + sep + s[i + |sep|..] == s;
      PrefixBeforeFirst(s, sep, i);
      [s[..i]] + rest
  }

  /** The text before the first occurrence of `sep` does not contain `sep`. */
  lemma PrefixBeforeFirst(s: string, sep: string, i: nat)
    requires sep != [] && i <= |s|
    requires forall j :: 0 <= j < i ==> !OccursAt(s, sep, j)
    ensures !Contains(s[..i], sep)
  {
    forall j | OccursAt(s[..i], sep, j) ensures false {
      assert s[..i][j..j + |sep|] == s[j..j + |sep|];
      assert OccursAt(s, sep, j);
    }
  }

  /** `str::splitn(2, sep)`: the text before the first `sep` and the text after it, or the whole text. */
  function SplitOnce(s: string, sep: string): (parts: seq<string>)
    requires sep != []
    ensures 1 <= |parts| <= 2
    ensures |parts| == 1 <==> !Contains(s, sep)
    ensures Join(parts, sep) == s
    ensures !Contains(parts[0], sep)
  {
    match Find(s, sep)
    case None => [s]
    case Some(i) =>
      assert s[..i] + sep + s[i + |sep|..] == s;
      PrefixBeforeFirst(s, sep, i);
      [s[..i], s[i + |sep|..]]
  }

  /**
   * Splitting undoes joining when no part contains the first character of
   * the separator.
   */
  lemma {:induction false} SplitJoin(parts: seq<string>, sep: string)
    requires sep != [] && parts != []
    requires forall i :: 0 <= i < |parts| ==> sep[0] !in parts[i]
    ensures Split(Join(parts, sep), sep) == parts
    decreases |parts|
  {
    var s := Join(parts, sep);
    if |parts| == 1 {
      NoFirstCharNoOccurrence(s, sep);
    } else {
      var rest := Join(parts[1..], sep);
      assert s == parts[0] + sep + rest;
      FirstOccurrenceAfter(parts[0], sep, rest);
      assert s[|parts[0]| + |sep|..] == rest;
      SplitJoin(parts[1..], sep);
    }
  }

  lemma NoFirstCharNoOccurrence(s: string, sep: string)
    requires sep != [] && sep[0] !in s
    ensures !Contains(s, sep)
  {
    forall j | OccursAt(s, sep, j) ensures false {
    }
  }

  lemma FirstOccurrenceAfter(a: string, sep: string, b: string)
    requires sep != [] && sep[0] !in a
    ensures Find(a + sep + b, sep) == Some(|a|)
  {
    var s := a + sep + b;
    assert s[|a|..|a| + |sep|] == sep;
    assert OccursAt(s, sep, |a|);
    var r := Find(s, sep);
  }

  /** A one-character separator occurs exactly where that character does. */
  lemma ContainsChar(s: string, c: char)
    ensures Contains(s, [c]) <==> c in s
  {
    if c in s {
      var i :| 0 <= i < |s| && s[i] == c;
      assert OccursAt(s, [c], i);
    }
    if Contains(s, [c]) {
      var i :| 0 <= i <= |s| && OccursAt(s, [c], i);
      assert s[i] == s[i..i + 1][0];
    }
  }

  /** The first two parts of a split are what splitting once, and then once more, gives. */
  lemma SplitHead(s: string, sep: string)
    requires sep != []
    ensures var parts, once := Split(s, sep), SplitOnce(s, sep);
      parts[0] == once[0] && (|parts| == 1 <==> |once| == 1)
      && (|once| == 2 ==> parts[1] == SplitOnce(once[1], sep)[0])
  {
    match Find(s, sep)
    case None =>
    case Some(i) =>
      var rest := s[i + |sep|..];
      assert Split(s, sep) == [s[..i]] + Split(rest, sep);
      assert SplitOnce(s, sep) == [s[..i], rest];
      match Find(rest, sep)
      case None =>
      case Some(k) =>
        assert Split(rest, sep)[0] == rest[..k];
  }

  /** Splitting on one character gives one part more than there are occurrences of it. */
  lemma {:induction false} SplitCount(s: string, c: char)
    ensures |Split(s, [c])| == multiset(s)[c] + 1
    decreases |s|
  {
    match Find(s, [c])
    case None =>
      ContainsChar(s, c);
    case Some(i) =>
      var before, rest := s[..i], s[i + 1..];
      assert Split(s, [c]) == [before] + Split(rest, [c]);
      SplitCount(rest, c);
      PrefixBeforeFirst(s, [c], i);
      ContainsChar(before, c);
      assert s[i] == c by {
        assert s[i..i + 1] == [c];
      }
      assert s == before + [c] + rest;
      assert multiset(s) == multiset(before) + multiset{c} + multiset(rest);
  }

  /** A join whose first part is not empty starts as that part does. */
  lemma JoinFirst(parts: seq<string>, sep: string)
    requires parts != [] && parts[0] != []
    ensures Join(parts, sep) != [] && Join(parts, sep)[0] == parts[0][0]
  {
  }

  /** A join whose last part is not empty ends as that part does. */
  lemma {:induction false} JoinLast(parts: seq<string>, sep: string)
    requires parts != [] && parts[|parts| - 1] != []
    ensures var s := Join(parts, sep); s != [] && s[|s| - 1] == parts[|parts| - 1][|parts[|parts| - 1]| - 1]
    decreases |parts|
  {
    if |parts| > 1 {
      JoinLast(parts[1..], sep);
    }
  }

  /** Every part with `p` put in front of it. */
  function PrefixAll(parts: seq<string>, p: string): (r: seq<string>)
    ensures |r| == |parts| && forall i :: 0 <= i < |parts| ==> r[i] == p + parts[i]
  {
    seq(|parts|, i requires 0 <= i < |parts| => p + parts[i])
  }

  lemma {:induction false} JoinPrefixAll(parts: seq<string>, sep: string, p: string)
    requires parts != []
    ensures Join(PrefixAll(parts, p), sep) == p + Join(parts, sep + p)
    decreases |parts|
  {
    if |parts| > 1 {
      assert PrefixAll(parts, p)[1..] == PrefixAll(parts[1..], p);
      JoinPrefixAll(parts[1..], sep, p);
    }
  }

  /**
   * Joining with `sep + p` is joining with `sep` once every part after the
   * first has `p` in front of it (`a, b` is `a` and ` b` joined by `,`).
   */
  lemma JoinPadded(parts: seq<string>, sep: string, p: string)
    requires parts != []
    ensures Join(parts, sep + p) == Join([parts[0]] + PrefixAll(parts[1..], p), sep)
  {
    var padded := [parts[0]] + PrefixAll(parts[1..], p);
    if |parts| > 1 {
      assert padded[1..] == PrefixAll(parts[1..], p);
      JoinPrefixAll(parts[1..], sep, p);
    }
  }

  // ---------------------------------------------------------------------------
  // Characters: ASCII case mapping and replacement
  // ---------------------------------------------------------------------------

  predicate IsLower(c: char) { 'a' <= c <= 'z' }

  predicate IsUpper(c: char) { 'A' <= c <= 'Z' }

  function Lower(c: char): (d: char)
    ensures IsUpper(c) ==> IsLower(d) && d as int == c as int + 32
    ensures !IsUpper(c) ==> d == c
  {
    if IsUpper(c) then (c as int + 32) as char else c
  }

  function Upper(c: char): (d: char)
    ensures IsLower(c) ==> IsUpper(d) && d as int == c as int - 32
    ensures !IsLower(c) ==> d == c
  {
    if IsLower(c) then (c as int - 32) as char else c
  }

  /** `str::to_lowercase`, restricted to ASCII letters. */
  function ToLower(s: string): (r: string)
    ensures |r| == |s|
    ensures forall i :: 0 <= i < |s| ==> r[i] == Lower(s[i])
  {
    if s == [] then [] else [Lower(s[0])] + ToLower(s[1..])
  }

  /** `str::to_uppercase`, restricted to ASCII letters. */
  function ToUpper(s: string): (r: string)
    ensures |r| == |s|
    ensures forall i :: 0 <= i < |s| ==> r[i] == Upper(s[i])
  {
    if s == [] then [] else [Upper(s[0])] + ToUpper(s[1..])
  }

  /** `str::replace` with one-character patterns: every `from` becomes `to`. */
  function Replace(s: string, from: char, to: char): (r: string)
    ensures |r| == |s|
    ensures forall i :: 0 <= i < |s| ==> r[i] == (if s[i] == from then to else s[i])
  {
    if s == [] then [] else [if s[0] == from then to else s[0]] + Replace(s[1..], from, to)
  }
}
