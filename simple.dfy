/**
 * The `Simple` source: a flat string table read from text made of
 * `key = value` lines, where blank lines and lines starting with `#` are
 * skipped, every other line must hold an `=`, and key and value are trimmed.
 */
module Simple {
  import opened Wrappers
  import opened Text
  import Tables

  /** Why a `Simple` source could not be built: the file could not be read, or a line is not a key/value pair. */
  datatype Error = File(message: string) | InvalidKeyValuePair

  /** After trimming, the line is empty or starts with `#`. */
  predicate IsSkipped(line: string) {
    var t := Trim(line);
    t == [] || t[0] == '#'
  }

  /**
   * One line: `Ok(None)` for a blank or comment line, an error for any other
   * line without `=`, else the trimmed text before the first `=` and the
   * trimmed text after it.
   */
  function ParseLine(line: string): (r: Result<Option<(string, string)>, Error>)
    ensures r == Ok(None) <==> IsSkipped(line)
    ensures r.Err? <==> !IsSkipped(line) && '=' !in line
    ensures r.Err? ==> r.error == InvalidKeyValuePair
    ensures r.Ok? && r.value.Some? ==> '=' !in r.value.value.0
  {
    TrimMatchesKeeps(line, Whitespace, '=');
    ParseTrimmedLine(Trim(line))
  }

  /** ParseLine once the line is trimmed. */
  function ParseTrimmedLine(line: string): (r: Result<Option<(string, string)>, Error>)
    ensures r == Ok(None) <==> line == [] || line[0] == '#'
    ensures r.Err? <==> line != [] && line[0] != '#' && '=' !in line
    ensures r.Err? ==> r.error == InvalidKeyValuePair
    ensures r.Ok? && r.value.Some? ==> '=' !in r.value.value.0
  {
    ContainsChar(line, '=');
    if |line| > 0 && line[0] == '#' then Ok(None)
    else if |line| < 1 then Ok(None)
    else
      var parts := SplitOnce(line, "=");
      if |parts| < 2 then Err(InvalidKeyValuePair)
      else
        TrimMatchesKeeps(parts[0], Whitespace, '=');
        ContainsChar(parts[0], '=');
        Ok(Some((Trim(parts[0]), Trim(parts[1]))))
  }

  lemma ParseTrimmedPair(t: string, j: nat, k: string, v: string)
    requires t != [] && t[0] != '#'
    requires j < |t| && t[j] == '=' && '=' !in t[..j]
    requires Trim(t[..j]) == k && Trim(t[j + 1..]) == v
    ensures ParseTrimmedLine(t) == Ok(Some((k, v)))
  {
    assert t == t[..j] + "=" + t[j + 1..];
    FirstOccurrenceAfter(t[..j], "=", t[j + 1..]);
  }

  /**
   * A key/value line splits at its first `=`, whatever surrounds the line:
   * the key is the trimmed text before it, the value the trimmed text after
   * it, and the value may hold further `=`.
   */
  lemma ParseLinePair(line: string, i: nat)
    requires !IsSkipped(line)
    requires i < |line| && line[i] == '=' && '=' !in line[..i]
    ensures ParseLine(line) == Ok(Some((Trim(line[..i]), Trim(line[i + 1..]))))
  {
    var j := EqualsInTrimmed(line, i);
    TrimMatchesBefore(line, i, Whitespace);
    TrimMatchesAfter(line, i, Whitespace);
    ParseTrimmedPair(Trim(line), j, Trim(line[..i]), Trim(line[i + 1..]));
  }

  /** The first `=` of a line is the first `=` of the trimmed line, shifted by the stripped front. */
  lemma EqualsInTrimmed(line: string, i: nat) returns (j: nat)
    requires i < |line| && line[i] == '=' && '=' !in line[..i]
    ensures j == i - TrimStart(line, Whitespace)
    ensures j < |Trim(line)| && Trim(line)[j] == '=' && '=' !in Trim(line)[..j]
  {
    var a := TrimStart(line, Whitespace);
    TrimMatchesKeepsAt(line, i, Whitespace);
    NotInSlice(line, '=', a, i);
    j := i - a;
  }

  // ---------------------------------------------------------------------------
  // Whole texts
  // ---------------------------------------------------------------------------

  /** The lines of a text, split at every `\n`. */
  function Lines(s: string): seq<string> {
    Split(s, "\n")
  }

  /** No line is rejected. */
  predicate AllAccepted(lines: seq<string>) {
    forall i :: 0 <= i < |lines| ==> ParseLine(lines[i]).Ok?
  }

  /** The pair a line contributes: none for a skipped or rejected line. */
  function EntryOf(line: string): seq<(string, string)> {
    match ParseLine(line)
    case Ok(Some(kv)) => [kv]
    case _ => []
  }

  /** The pairs of the key/value lines, in order. */
  function Entries(lines: seq<string>): seq<(string, string)> {
    if lines == [] then [] else Entries(lines[..|lines| - 1]) + EntryOf(lines[|lines| - 1])
  }

  /** Accepting one more line extends the accepted prefix and its pairs. */
  lemma LinesStep(lines: seq<string>, i: nat)
    requires i < |lines| && AllAccepted(lines[..i]) && ParseLine(lines[i]).Ok?
    ensures AllAccepted(lines[..i + 1])
    ensures Entries(lines[..i + 1]) == Entries(lines[..i]) + EntryOf(lines[i])
  {
    var done := lines[..i + 1];
    assert done[..i] == lines[..i] && done[i] == lines[i];
  }

  /** What reading a whole text yields: its table when every line is accepted, else the line error. */
  function Parsed(s: string): Result<map<string, string>, Error> {
    var lines := Lines(s);
    if AllAccepted(lines) then Ok(Tables.Collect(Entries(lines))) else Err(InvalidKeyValuePair)
  }

  /** A text of one key/value line reads as a table of that one pair. */
  lemma ParsedOneLine(line: string, kv: (string, string))
    requires '\n' !in line && ParseLine(line) == Ok(Some(kv))
    ensures Parsed(line) == Ok(map[kv.0 := kv.1])
  {
    OneLine(line);
    OneEntry(line, kv);
    ParsedSingle(line, kv);
  }

  /** A single accepted line contributes its one pair. */
  lemma OneEntry(line: string, kv: (string, string))
    requires ParseLine(line) == Ok(Some(kv))
    ensures AllAccepted([line]) && Entries([line]) == [kv]
  {
    assert Entries([line]) == Entries([]) + EntryOf(line);
  }

  /** The text that is one accepted line holding `kv`. */
  lemma ParsedSingle(line: string, kv: (string, string))
    requires Lines(line) == [line] && AllAccepted([line]) && Entries([line]) == [kv]
    ensures Parsed(line) == Ok(map[kv.0 := kv.1])
  {
    ParsedAs(line, [line], [kv]);
    Tables.CollectOne(kv);
  }

  /** A text whose lines are all accepted reads as the table of their pairs. */
  lemma ParsedAs(s: string, lines: seq<string>, pairs: seq<(string, string)>)
    requires Lines(s) == lines && AllAccepted(lines) && Entries(lines) == pairs
    ensures Parsed(s) == Ok(Tables.Collect(pairs))
  {
  }

  lemma OneLine(line: string)
    requires '\n' !in line
    ensures Lines(line) == [line]
  {
    NoFirstCharNoOccurrence(line, "\n");
  }

  /**
   * Reads the lines in order into a table, a later line overwriting an
   * earlier one with the same key, and stops at the first rejected line with
   * that line's error.
   */
  method Parse(s: string) returns (r: Result<map<string, string>, Error>)
    ensures r.Err? <==> exists i :: 0 <= i < |Lines(s)| && ParseLine(Lines(s)[i]).Err?
    ensures r.Err? ==> exists i :: 0 <= i < |Lines(s)| && ParseLine(Lines(s)[i]) == Err(r.error)
                                   && AllAccepted(Lines(s)[..i])
    ensures r.Ok? ==> r.value == Tables.Collect(Entries(Lines(s)))
    ensures r == Parsed(s)
  {
    var values: map<string, string> := map[];
    var lines := Lines(s);
    for i := 0 to |lines|
      invariant AllAccepted(lines[..i])
      invariant values == Tables.Collect(Entries(lines[..i]))
    {
      var parsed := ParseLine(lines[i]);
      if parsed.Err? {
        assert ParseLine(lines[i]).Err?;
        return Err(parsed.error);
      }
      LinesStep(lines, i);
      if parsed.value.Some? {
        var kv := parsed.value.value;
        assert EntryOf(lines[i]) == [kv];
        Tables.CollectStep(Entries(lines[..i]), kv);
        values := values[kv.0 := kv.1];
      } else {
        assert EntryOf(lines[i]) == [];
        assert Entries(lines[..i]) + [] == Entries(lines[..i]);
      }
    }
    assert lines[..|lines|] == lines;
    return Ok(values);
  }

  // ---------------------------------------------------------------------------
  // Writing a table back out
  // ---------------------------------------------------------------------------

  /** A key that a `key = value` line gives back unchanged: trimmed, without `=` or a line break, not starting with `#`. */
  predicate IsPlainKey(k: string) {
    Trim(k) == k && '=' !in k && '\n' !in k && (k == [] || k[0] != '#')
  }

  /** A value that a `key = value` line gives back unchanged: trimmed and without a line break. */
  predicate IsPlainValue(v: string) {
    Trim(v) == v && '\n' !in v
  }

  function RenderLine(kv: (string, string)): string {
    kv.0 + " = " + kv.1
  }

  /** The text with one `key = value` line per pair, in order. */
  function Render(pairs: seq<(string, string)>): string {
    Join(seq(|pairs|, i requires 0 <= i < |pairs| => RenderLine(pairs[i])), "\n")
  }

  lemma RenderLineShape(k: string, v: string)
    ensures var line := RenderLine((k, v));
      && line[|k| + 1] == '=' && line[..|k| + 1] == k + " " && line[|k| + 2..] == " " + v
      && line[0] == (if k == [] then ' ' else k[0]) && (k == [] ==> line[1] == '=')
  {
  }

  lemma ParseRenderedLine(k: string, v: string)
    requires IsPlainKey(k) && IsPlainValue(v)
    ensures ParseLine(RenderLine((k, v))) == Ok(Some((k, v)))
  {
    var line := RenderLine((k, v));
    var i := |k| + 1;
    RenderLineShape(k, v);
    if k != [] {
      TrimMatchesFirst(line, Whitespace, 0);
    } else {
      TrimMatchesFirst(line, Whitespace, 1);
    }
    ParseLinePair(line, i);
    TrimMatchesRightPadded(k, " ", Whitespace);
    TrimMatchesLeftPadded(" ", v, Whitespace);
  }

  lemma {:induction false} RenderedEntries(pairs: seq<(string, string)>, lines: seq<string>, n: nat)
    requires n <= |pairs| == |lines|
    requires forall i :: 0 <= i < |pairs| ==> ParseLine(lines[i]) == Ok(Some(pairs[i]))
    ensures AllAccepted(lines[..n]) && Entries(lines[..n]) == pairs[..n]
  {
    if n > 0 {
      RenderedEntries(pairs, lines, n - 1);
      LinesStep(lines, n - 1);
      assert EntryOf(lines[n - 1]) == [pairs[n - 1]];
      PrefixSnoc(pairs, n);
    }
  }

  /** Empty text is one empty line, which is skipped: it reads as an empty table. */
  lemma ParsedEmpty()
    ensures Parsed("") == Ok(map[])
  {
    assert Lines("") == [""];
    assert IsSkipped("") by {
      assert Trim("") == "";
    }
    assert Entries([""]) == Entries([]) + EntryOf("");
  }

  lemma RenderedLines(pairs: seq<(string, string)>, lines: seq<string>)
    requires pairs != [] && forall i :: 0 <= i < |pairs| ==> IsPlainKey(pairs[i].0) && IsPlainValue(pairs[i].1)
    requires lines == seq(|pairs|, i requires 0 <= i < |pairs| => RenderLine(pairs[i]))
    ensures Lines(Render(pairs)) == lines
  {
    forall i | 0 <= i < |lines| ensures '\n' !in lines[i] {
      assert lines[i] == pairs[i].0 + " = " + pairs[i].1;
    }
    SplitJoin(lines, "\n");
  }

  /**
   * Writing pairs out as `key = value` lines and reading the text back gives
   * the table those pairs build, when keys and values are plain.
   */
  lemma RenderThenParse(pairs: seq<(string, string)>)
    requires forall i :: 0 <= i < |pairs| ==> IsPlainKey(pairs[i].0) && IsPlainValue(pairs[i].1)
    ensures Parsed(Render(pairs)) == Ok(Tables.Collect(pairs))
  {
    if pairs == [] {
      assert Render(pairs) == "";
      ParsedEmpty();
    } else {
      var lines := seq(|pairs|, i requires 0 <= i < |pairs| => RenderLine(pairs[i]));
      RenderedAccepted(pairs, lines);
      ParsedAs(Render(pairs), lines, pairs);
    }
  }

  /** The rendered lines are all accepted and give back the pairs in order. */
  lemma RenderedAccepted(pairs: seq<(string, string)>, lines: seq<string>)
    requires pairs != [] && forall i :: 0 <= i < |pairs| ==> IsPlainKey(pairs[i].0) && IsPlainValue(pairs[i].1)
    requires lines == seq(|pairs|, i requires 0 <= i < |pairs| => RenderLine(pairs[i]))
    ensures Lines(Render(pairs)) == lines && AllAccepted(lines) && Entries(lines) == pairs
  {
    RenderedLines(pairs, lines);
    forall i | 0 <= i < |pairs| ensures ParseLine(lines[i]) == Ok(Some(pairs[i])) {
      ParseRenderedLine(pairs[i].0, pairs[i].1);
    }
    RenderedEntries(pairs, lines, |pairs|);
    assert lines[..|pairs|] == lines && pairs[..|pairs|] == pairs;
  }

  // ---------------------------------------------------------------------------
  // The examples of the unit tests
  // ---------------------------------------------------------------------------

  /** The unit test's comment line. */
  lemma ParseCommentExample()
    ensures ParseLine("     # comment   ") == Ok(None)
  {
    TrimMatchesFirst("     # comment   ", Whitespace, 5);
  }

  /** The unit test's line without `=`. */
  lemma ParseNoEqualsExample()
    ensures ParseLine("  test") == Err(InvalidKeyValuePair)
  {
    TrimMatchesFirst("  test", Whitespace, 2);
  }

  /**
   * Whitespace around the key and around the value is dropped, and only the
   * first `=` separates them: the value may hold further `=` characters, and
   * the key may be empty.
   */
  lemma ParsePadded(p1: string, k: string, p2: string, p3: string, v: string, p4: string)
    requires AllMatch(p1, Whitespace) && AllMatch(p2, Whitespace)
    requires AllMatch(p3, Whitespace) && AllMatch(p4, Whitespace)
    requires (k == [] || k[0] != '#') && Bare(k, Whitespace) && '=' !in k && Bare(v, Whitespace)
    ensures ParseLine(p1 + k + p2 + "=" + p3 + v + p4) == Ok(Some((k, v)))
  {
    var line := p1 + k + p2 + "=" + p3 + v + p4;
    var i := |p1| + |k| + |p2|;
    assert line[..i] == p1 + k + p2;
    assert line[i + 1..] == p3 + v + p4;
    if k == [] {
      assert line[i] == '=';
      assert forall j :: 0 <= j < i ==> line[j] == (p1 + p2)[j];
      TrimMatchesFirst(line, Whitespace, i);
    } else {
      assert line[|p1|] == k[0];
      TrimMatchesFirst(line, Whitespace, |p1|);
    }
    ParseLinePair(line, i);
    TrimMatchesPadded(p1, k, p2, Whitespace);
    TrimMatchesBare(k, Whitespace);
    TrimMatchesPadded(p3, v, p4, Whitespace);
    TrimMatchesBare(v, Whitespace);
  }

  /** The unit test's key/value line. */
  lemma ParseFooBarExample()
    ensures ParseLine("  foo    =    bar    ") == Ok(Some(("foo", "bar")))
  {
    ParsePadded("  ", "foo", "    ", "    ", "bar", "    ");
    FooBarText();
  }

  lemma FooBarText()
    ensures "  " + "foo" + "    " + "=" + "    " + "bar" + "    " == "  foo    =    bar    "
  {
  }

  // ---------------------------------------------------------------------------
  // The source
  // ---------------------------------------------------------------------------

  datatype Simple = Simple(values: map<string, string>) {
    /** The value the table holds for `key`. */
    function Get(key: string): (r: Option<string>)
      ensures r.Some? <==> key in values
      ensures r.Some? ==> r.value == values[key]
    {
      if key in values then Some(values[key]) else None
    }
  }

  /** Builds a source from text; fails exactly when reading the text fails. */
  method FromStr(s: string) returns (r: Result<Simple, Error>)
    ensures r.Ok? <==> AllAccepted(Lines(s))
    ensures r.Ok? ==> r.value.values == Tables.Collect(Entries(Lines(s)))
    ensures r.Err? ==> r.error == InvalidKeyValuePair
  {
    var values := Parse(s);
    match values {
      case Err(e) => return Err(e);
      case Ok(v) => return Ok(Simple(v));
    }
  }
}
