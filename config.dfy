/**
 * The configuration interface: a source answers `Get(key)` with the string
 * value it holds for the key, if any, and the typed accessors read that
 * string as a string, an integer, a boolean, a duration in seconds, a list
 * or a table. The sources are a string table, a `Simple` source, the
 * environment, and a chain of sources consulted in order.
 */
module Config {
  import opened Wrappers
  import opened Text
  import opened Numbers
  import Tables
  import Simple
  import Env

  /** A duration, as a whole number of seconds. */
  datatype Duration = Seconds(seconds: i64)

  /** The characters stripped from both ends of a list value. */
  const ListTrim: set<char> := Whitespace + {'[', ']'}

  /** The characters stripped from both ends of a table value. */
  const MapTrim: set<char> := Whitespace + {'{', '}'}

  /** The values that read as `true`, once lower-cased. */
  const TrueWords: set<string> := {"t", "true", "1", "y", "yes"}

  /** A configuration source. */
  datatype Source =
    | HashMapSource(entries: map<string, string>)
    | SimpleSource(simple: Simple.Simple)
    | EnvSource(env: Env.Environment, vars: map<string, string>)
    | MultiSource(configs: seq<Source>)
  {
    /** The value this source holds for `key`. */
    function Get(key: string): (r: Option<string>)
      ensures HashMapSource? ==> (r.Some? <==> key in entries) && (r.Some? ==> r.value == entries[key])
      ensures SimpleSource? ==> (r.Some? <==> key in simple.values) && (r.Some? ==> r.value == simple.values[key])
      ensures EnvSource? ==> (r.Some? <==> env.VarName(key) in vars) && (r.Some? ==> r.value == vars[env.VarName(key)])
      decreases this, 1
    {
      match this
      case HashMapSource(entries) => if key in entries then Some(entries[key]) else None
      case SimpleSource(simple) => simple.Get(key)
      case EnvSource(env, vars) => env.Get(vars, key)
      case MultiSource(configs) => FirstFound(configs, key)
    }

    /** `must_get`: the value, which must be present. */
    function MustGet(key: string): (v: string)
      requires Get(key).Some?
      ensures Get(key) == Some(v)
    {
      Get(key).value
    }

    /** `string`: the value as a string, which must be present. */
    function GetString(key: string): (v: string)
      requires Get(key).Some?
      ensures Get(key) == Some(v)
    {
      MustGet(key)
    }

    /** `int`: the value read as a signed 64-bit integer; it must be present and well formed. */
    function GetInt(key: string): (n: i64)
      requires Get(key).Some? && ParseI64(Get(key).value).Some?
      ensures ParseI64(MustGet(key)) == Some(n)
    {
      ParseI64(MustGet(key)).value
    }

    /**
     * `bool`: true exactly when the value, lower-cased, is one of `t`,
     * `true`, `1`, `y`, `yes`; any other present value is false.
     */
    function GetBool(key: string): (b: bool)
      requires Get(key).Some?
      ensures b <==> ToLower(MustGet(key)) in TrueWords
    {
      IsTrue(MustGet(key))
    }

    /** `duration`: the value read as an integer number of seconds. */
    function GetDuration(key: string): (d: Duration)
      requires Get(key).Some? && ParseI64(Get(key).value).Some?
      ensures ParseI64(MustGet(key)) == Some(d.seconds)
    {
      Seconds(GetInt(key))
    }

    /** `list`: the items of a bracketed, comma-separated value. */
    function GetList(key: string): (items: seq<string>)
      requires Get(key).Some?
      ensures |items| == multiset(TrimMatches(MustGet(key), ListTrim))[','] + 1
      ensures forall i :: 0 <= i < |items| ==> Bare(items[i], Whitespace) && ',' !in items[i]
    {
      ListItems(MustGet(key))
    }

    /** `map`: the table of a braced, comma-separated list of `key=>value` entries. */
    function GetMap(key: string): (m: map<string, string>)
      requires Get(key).Some?
      ensures Tables.IsCollected(MapEntries(MustGet(key)), m)
    {
      Tables.Collect(MapEntries(MustGet(key)))
    }
  }

  /** The value of the first source in `configs` that holds `key`. */
  function FirstFound(configs: seq<Source>, key: string): (r: Option<string>)
    ensures r.None? <==> forall i :: 0 <= i < |configs| ==> configs[i].Get(key).None?
    ensures r.Some? ==> exists i :: 0 <= i < |configs| && configs[i].Get(key) == r
                                   && forall j :: 0 <= j < i ==> configs[j].Get(key).None?
    decreases configs, 1
  {
    if configs == [] then None
    else
      match configs[0].Get(key)
      case Some(v) => Some(v)
      case None =>
        var r := FirstFound(configs[1..], key);
        FirstFoundShift(configs, key, r);
        r
  }

  /** What the first source does not hold, the rest of the chain decides. */
  lemma FirstFoundShift(configs: seq<Source>, key: string, r: Option<string>)
    requires configs != [] && configs[0].Get(key).None?
    requires r.None? <==> forall i :: 0 <= i < |configs[1..]| ==> configs[1..][i].Get(key).None?
    requires r.Some? ==> exists i :: 0 <= i < |configs[1..]| && configs[1..][i].Get(key) == r
                                   && forall j :: 0 <= j < i ==> configs[1..][j].Get(key).None?
    ensures r.None? <==> forall i :: 0 <= i < |configs| ==> configs[i].Get(key).None?
    ensures r.Some? ==> exists i :: 0 <= i < |configs| && configs[i].Get(key) == r
                                   && forall j :: 0 <= j < i ==> configs[j].Get(key).None?
    decreases configs, 0
  {
    assert forall i :: 1 <= i < |configs| ==> configs[i] == configs[1..][i - 1];
    if r.Some? {
      var i :| 0 <= i < |configs[1..]| && configs[1..][i].Get(key) == r
               && forall j :: 0 <= j < i ==> configs[1..][j].Get(key).None?;
      assert configs[i + 1].Get(key) == r;
    }
  }

  /** The first source holding `key` decides the value, whatever the sources after it hold. */
  lemma {:induction false} FirstFoundAt(configs: seq<Source>, key: string, i: nat)
    requires i < |configs| && configs[i].Get(key).Some?
    requires forall j :: 0 <= j < i ==> configs[j].Get(key).None?
    ensures FirstFound(configs, key) == configs[i].Get(key)
    decreases i
  {
    if i > 0 {
      FirstFoundAt(configs[1..], key, i - 1);
    }
  }

  // ---------------------------------------------------------------------------
  // Reading values
  // ---------------------------------------------------------------------------

  /** The boolean reading of a value. */
  function IsTrue(value: string): (b: bool)
    ensures b <==> ToLower(value) in TrueWords
  {
    var v := ToLower(value);
    v == "t" || v == "true" || v == "1" || v == "y" || v == "yes"
  }

  /** A value and its upper-cased form read as the same boolean. */
  lemma IsTrueIgnoresCase(value: string)
    ensures IsTrue(ToUpper(value)) == IsTrue(value)
  {
    assert ToLower(ToUpper(value)) == ToLower(value) by {
      forall i | 0 <= i < |value| ensures Lower(Upper(value[i])) == Lower(value[i]) {
      }
    }
  }

  /** Each accepted spelling reads as true, and a few common others do not. */
  lemma IsTrueExamples()
    ensures IsTrue("t") && IsTrue("TRUE") && IsTrue("1") && IsTrue("Y") && IsTrue("Yes")
    ensures !IsTrue("") && !IsTrue("0") && !IsTrue("false") && !IsTrue("on")
  {
  }

  /** The items of a list value: brackets and whitespace stripped, split at commas, each item trimmed. */
  function ListItems(s: string): (items: seq<string>)
    ensures |items| == multiset(TrimMatches(s, ListTrim))[','] + 1
    ensures forall i :: 0 <= i < |items| ==> Bare(items[i], Whitespace) && ',' !in items[i]
  {
    var t := TrimMatches(s, ListTrim);
    var parts := Split(t, ",");
    SplitCount(t, ',');
    forall i | 0 <= i < |parts| ensures ',' !in Trim(parts[i]) {
      ContainsChar(parts[i], ',');
      TrimMatchesKeeps(parts[i], Whitespace, ',');
    }
    TrimAll(parts)
  }

  /**
   * An item of a list that is written back without change. This is a
   * sufficient condition, not the exact one: an empty item in the middle,
   * as in `[a, , b]`, also reads back; only the first and the last item
   * must not be empty for the brackets to be trimmed off cleanly.
   */
  predicate IsPlainItem(item: string) {
    item != [] && Bare(item, ListTrim) && ',' !in item
  }

  /** Text enclosed in characters of `cs`, whose own ends are not in `cs`, trims to itself. */
  lemma TrimEnclosed(pre: string, j: string, post: string, cs: set<char>)
    requires AllMatch(pre, cs) && AllMatch(post, cs) && j != [] && Bare(j, cs)
    ensures TrimMatches(pre + j + post, cs) == j
  {
    TrimMatchesPadded(pre, j, post, cs);
    TrimMatchesBare(j, cs);
  }

  /** Whitespace in front of a word that does not start or end with whitespace is trimmed away. */
  lemma TrimWord(p: string, w: string)
    requires AllMatch(p, Whitespace) && Bare(w, Whitespace)
    ensures Trim(p + w) == w
  {
    TrimMatchesLeftPadded(p, w, Whitespace);
    TrimMatchesBare(w, Whitespace);
  }

  /** Splitting `a, b, c` at commas gives `a`, ` b`, ` c`. */
  lemma SplitCommaSpaced(items: seq<string>)
    requires items != [] && forall i :: 0 <= i < |items| ==> ',' !in items[i]
    ensures Split(Join(items, ", "), ",") == [items[0]] + PrefixAll(items[1..], " ")
  {
    JoinCommaSpaced(items);
    SpacedHasNoComma(items);
    SplitJoin([items[0]] + PrefixAll(items[1..], " "), ",");
  }

  lemma JoinCommaSpaced(items: seq<string>)
    requires items != []
    ensures Join(items, ", ") == Join([items[0]] + PrefixAll(items[1..], " "), ",")
  {
    JoinPadded(items, ",", " ");
    assert "," + " " == ", ";
  }

  lemma SpacedHasNoComma(items: seq<string>)
    requires items != [] && forall i :: 0 <= i < |items| ==> ',' !in items[i]
    ensures forall i :: 0 <= i < |items| ==> ',' !in ([items[0]] + PrefixAll(items[1..], " "))[i]
  {
    var parts := [items[0]] + PrefixAll(items[1..], " ");
    forall i | 0 <= i < |parts| ensures ',' !in parts[i] {
      if i > 0 {
        assert parts[i] == " " + items[i];
      }
    }
  }

  /**
   * Writing items as `[a, b, c]` and reading the list back gives the items.
   * The brackets are optional: any run of brackets and whitespace, or none,
   * may stand in front and behind.
   */
  lemma ListRoundTrip(pre: string, items: seq<string>, post: string)
    requires AllMatch(pre, ListTrim) && AllMatch(post, ListTrim)
    requires items != [] && forall i :: 0 <= i < |items| ==> IsPlainItem(items[i])
    ensures ListItems(pre + Join(items, ", ") + post) == items
  {
    PlainItemEnds(items);
    TrimEnclosedJoin(pre, items, ", ", post, ListTrim);
    ListSplit(items);
    ListPartsTrimmed(items);
    ListItemsOf(pre + Join(items, ", ") + post, [items[0]] + PrefixAll(items[1..], " "));
  }

  /** Items written as `a,b,c`, without spaces or brackets, read back as the items. */
  lemma ListRoundTripTight(items: seq<string>)
    requires items != [] && forall i :: 0 <= i < |items| ==> IsPlainItem(items[i])
    ensures ListItems(Join(items, ",")) == items
  {
    var s := Join(items, ",");
    ListTightTrimmed(items);
    ListTightSplit(items);
    TrimAllBare(items);
    ListItemsOf(s, items);
  }

  lemma ListTightTrimmed(items: seq<string>)
    requires items != [] && forall i :: 0 <= i < |items| ==> IsPlainItem(items[i])
    ensures TrimMatches(Join(items, ","), ListTrim) == Join(items, ",")
  {
    PlainItemEnds(items);
    TrimEnclosedJoin("", items, ",", "", ListTrim);
    assert "" + Join(items, ",") + "" == Join(items, ",");
  }

  lemma ListTightSplit(items: seq<string>)
    requires items != [] && forall i :: 0 <= i < |items| ==> IsPlainItem(items[i])
    ensures Split(Join(items, ","), ",") == items
  {
    PlainItemsAreBare(items);
    SplitJoin(items, ",");
  }

  /** Trimming parts that do not start or end with whitespace changes none of them. */
  lemma TrimAllBare(parts: seq<string>)
    requires forall i :: 0 <= i < |parts| ==> Bare(parts[i], Whitespace)
    ensures TrimAll(parts) == parts
  {
    forall i | 0 <= i < |parts| ensures Trim(parts[i]) == parts[i] {
      TrimMatchesBare(parts[i], Whitespace);
    }
  }

  /** An empty value is a list of one empty item. */
  lemma ListItemsEmpty()
    ensures ListItems("") == [""]
  {
    assert TrimMatches("", ListTrim) == "";
    assert Split("", ",") == [""];
    ListItemsOf("", [""]);
    assert Trim("") == "";
  }

  lemma PlainItemEnds(items: seq<string>)
    requires items != [] && forall i :: 0 <= i < |items| ==> IsPlainItem(items[i])
    ensures items[0] != [] && items[0][0] !in ListTrim
    ensures items[|items| - 1] != [] && items[|items| - 1][|items[|items| - 1]| - 1] !in ListTrim
  {
    assert IsPlainItem(items[0]) && IsPlainItem(items[|items| - 1]);
  }

  lemma ListSplit(items: seq<string>)
    requires items != [] && forall i :: 0 <= i < |items| ==> IsPlainItem(items[i])
    ensures Split(Join(items, ", "), ",") == [items[0]] + PrefixAll(items[1..], " ")
  {
    PlainItemsAreBare(items);
    SplitCommaSpaced(items);
  }

  lemma ListPartsTrimmed(items: seq<string>)
    requires items != [] && forall i :: 0 <= i < |items| ==> IsPlainItem(items[i])
    ensures TrimAll([items[0]] + PrefixAll(items[1..], " ")) == items
  {
    PlainItemsAreBare(items);
    TrimSpaced(items);
  }

  lemma PlainItemsAreBare(items: seq<string>)
    requires forall i :: 0 <= i < |items| ==> IsPlainItem(items[i])
    ensures forall i :: 0 <= i < |items| ==> Bare(items[i], Whitespace) && ',' !in items[i]
  {
  }

  /** A join enclosed in characters of `cs`, whose ends are not in `cs`, trims to the join. */
  lemma TrimEnclosedJoin(pre: string, items: seq<string>, sep: string, post: string, cs: set<char>)
    requires AllMatch(pre, cs) && AllMatch(post, cs) && items != []
    requires items[0] != [] && items[0][0] !in cs
    requires items[|items| - 1] != [] && items[|items| - 1][|items[|items| - 1]| - 1] !in cs
    ensures TrimMatches(pre + Join(items, sep) + post, cs) == Join(items, sep)
  {
    JoinFirst(items, sep);
    JoinLast(items, sep);
    TrimEnclosed(pre, Join(items, sep), post, cs);
  }

  /** Trimming ` b`, ` c` after `a` gives back `a`, `b`, `c`. */
  lemma TrimSpaced(items: seq<string>)
    requires items != [] && forall i :: 0 <= i < |items| ==> Bare(items[i], Whitespace)
    ensures TrimAll([items[0]] + PrefixAll(items[1..], " ")) == items
  {
    var parts := [items[0]] + PrefixAll(items[1..], " ");
    var trimmed := TrimAll(parts);
    forall i | 0 <= i < |items| ensures trimmed[i] == items[i] {
      if i == 0 {
        TrimWord("", items[0]);
        assert "" + items[0] == items[0];
      } else {
        assert parts[i] == " " + items[i];
        TrimWord(" ", items[i]);
      }
    }
  }

  /** ListItems once the parts are known. */
  lemma ListItemsOf(s: string, parts: seq<string>)
    requires parts == Split(TrimMatches(s, ListTrim), ",")
    ensures ListItems(s) == TrimAll(parts)
  {
  }

  /**
   * One entry of a table value: the trimmed text before the first `=>` and
   * the trimmed text between it and the next `=>`, or an empty value when
   * there is no `=>`.
   */
  function MapEntry(item: string): (kv: (string, string))
    ensures kv.0 == Trim(SplitOnce(item, "=>")[0])
    ensures kv.1 == if |SplitOnce(item, "=>")| == 1 then "" else Trim(SplitOnce(SplitOnce(item, "=>")[1], "=>")[0])
  {
    var parts := Split(item, "=>");
    SplitHead(item, "=>");
    if |parts| < 2 then (Trim(parts[0]), "") else (Trim(parts[0]), Trim(parts[1]))
  }

  /** The entries of a table value, in order: braces and whitespace stripped, split at commas. */
  function MapEntries(s: string): (entries: seq<(string, string)>)
    ensures |entries| == multiset(TrimMatches(s, MapTrim))[','] + 1
    ensures forall i :: 0 <= i < |entries| ==> Bare(entries[i].0, Whitespace) && Bare(entries[i].1, Whitespace)
  {
    var t := TrimMatches(s, MapTrim);
    var items := Split(t, ",");
    SplitCount(t, ',');
    EntriesOf(items)
  }

  /** The entry of every item. */
  function EntriesOf(items: seq<string>): (entries: seq<(string, string)>)
    ensures |entries| == |items| && forall i :: 0 <= i < |items| ==> entries[i] == MapEntry(items[i])
  {
    seq(|items|, i requires 0 <= i < |items| => MapEntry(items[i]))
  }

  /**
   * A key or value of a table that is written back without change. This is
   * a sufficient condition, not the exact one: a value such as `x=y` reads
   * back too, since only `=>` separates key and value; excluding every `=`
   * keeps the proof simple.
   */
  predicate IsPlainWord(w: string) {
    w != [] && Bare(w, MapTrim) && ',' !in w && '=' !in w
  }

  /** `k=>v`, as a table value writes an entry. */
  function ShowEntry(kv: (string, string)): string {
    kv.0 + "=>" + kv.1
  }

  /** An entry written as `k=>v`, with whitespace in front, reads back as `(k, v)`. */
  lemma MapEntryOfShown(p: string, k: string, v: string)
    requires AllMatch(p, Whitespace) && IsPlainWord(k) && IsPlainWord(v)
    ensures MapEntry(p + ShowEntry((k, v))) == (k, v)
  {
    var item := p + ShowEntry((k, v));
    ShownParts(p, k, v);
    MapEntryOfParts(item, p + k, v);
    TrimWord(p, k);
    TrimWord("", v);
    assert "" + v == v;
  }

  /** `p` and `k=>v` split at `=>` into `p` with `k`, and `v`. */
  lemma ShownParts(p: string, k: string, v: string)
    requires AllMatch(p, Whitespace) && IsPlainWord(k) && IsPlainWord(v)
    ensures Split(p + ShowEntry((k, v)), "=>") == [p + k, v]
  {
    assert '=' !in p + k by {
      assert forall i :: 0 <= i < |p| ==> (p + k)[i] == p[i];
    }
    assert p + ShowEntry((k, v)) == Join([p + k, v], "=>");
    SplitJoin([p + k, v], "=>");
  }

  /** An item of exactly two parts reads as their trimmed texts. */
  lemma MapEntryOfParts(item: string, a: string, b: string)
    requires Split(item, "=>") == [a, b]
    ensures MapEntry(item) == (Trim(a), Trim(b))
  {
  }

  /** The text of each pair. */
  function ShowAll(pairs: seq<(string, string)>): (shown: seq<string>)
    ensures |shown| == |pairs| && forall i :: 0 <= i < |pairs| ==> shown[i] == ShowEntry(pairs[i])
  {
    seq(|pairs|, i requires 0 <= i < |pairs| => ShowEntry(pairs[i]))
  }

  /** `{k=>v, k=>v}`, as a table value is written. */
  function ShowMap(pairs: seq<(string, string)>): string {
    "{" + Join(ShowAll(pairs), ", ") + "}"
  }

  lemma ShownIsPlain(pairs: seq<(string, string)>)
    requires pairs != [] && forall i :: 0 <= i < |pairs| ==> IsPlainWord(pairs[i].0) && IsPlainWord(pairs[i].1)
    ensures var shown := ShowAll(pairs);
      && shown[0] != [] && shown[0][0] !in MapTrim
      && shown[|shown| - 1] != [] && shown[|shown| - 1][|shown[|shown| - 1]| - 1] !in MapTrim
      && forall i :: 0 <= i < |shown| ==> ',' !in shown[i]
  {
    var shown := ShowAll(pairs);
    var last := pairs[|pairs| - 1];
    assert shown[0][0] == pairs[0].0[0];
    assert shown[|shown| - 1] == last.0 + "=>" + last.1;
    assert shown[|shown| - 1][|shown[|shown| - 1]| - 1] == last.1[|last.1| - 1];
    forall i | 0 <= i < |shown| ensures ',' !in shown[i] {
      assert shown[i] == pairs[i].0 + "=>" + pairs[i].1;
    }
  }

  /** Each ` k=>v` after the first reads back as `(k, v)`. */
  lemma EntriesOfSpaced(pairs: seq<(string, string)>)
    requires pairs != [] && forall i :: 0 <= i < |pairs| ==> IsPlainWord(pairs[i].0) && IsPlainWord(pairs[i].1)
    ensures EntriesOf([ShowAll(pairs)[0]] + PrefixAll(ShowAll(pairs)[1..], " ")) == pairs
  {
    var shown := ShowAll(pairs);
    var parts := [shown[0]] + PrefixAll(shown[1..], " ");
    forall i | 0 <= i < |pairs| ensures MapEntry(parts[i]) == pairs[i] {
      EntryOfSpacedAt(pairs, i);
    }
  }

  lemma EntryOfSpacedAt(pairs: seq<(string, string)>, i: nat)
    requires i < |pairs| && IsPlainWord(pairs[i].0) && IsPlainWord(pairs[i].1)
    ensures MapEntry(([ShowAll(pairs)[0]] + PrefixAll(ShowAll(pairs)[1..], " "))[i]) == pairs[i]
  {
    var shown := ShowAll(pairs);
    var parts := [shown[0]] + PrefixAll(shown[1..], " ");
    if i == 0 {
      MapEntryOfShown("", pairs[0].0, pairs[0].1);
      assert "" + shown[0] == parts[0];
    } else {
      assert parts[i] == " " + shown[i];
      MapEntryOfShown(" ", pairs[i].0, pairs[i].1);
    }
  }

  /** MapEntries once the items are known. */
  lemma MapEntriesOf(s: string, items: seq<string>)
    requires items == Split(TrimMatches(s, MapTrim), ",")
    ensures MapEntries(s) == EntriesOf(items)
  {
  }

  /**
   * Writing pairs as `{k=>v, k=>v}` and reading the value back gives the
   * pairs, in order. The braces are optional: any run of braces and
   * whitespace, or none, may stand in front and behind.
   */
  lemma MapRoundTrip(pre: string, pairs: seq<(string, string)>, post: string)
    requires AllMatch(pre, MapTrim) && AllMatch(post, MapTrim)
    requires pairs != [] && forall i :: 0 <= i < |pairs| ==> IsPlainWord(pairs[i].0) && IsPlainWord(pairs[i].1)
    ensures MapEntries(pre + Join(ShowAll(pairs), ", ") + post) == pairs
  {
    var shown := ShowAll(pairs);
    ShownIsPlain(pairs);
    TrimEnclosedJoin(pre, shown, ", ", post, MapTrim);
    MapSplit(pairs);
    EntriesOfSpaced(pairs);
    MapEntriesOf(pre + Join(shown, ", ") + post, [shown[0]] + PrefixAll(shown[1..], " "));
  }

  lemma MapSplit(pairs: seq<(string, string)>)
    requires pairs != [] && forall i :: 0 <= i < |pairs| ==> IsPlainWord(pairs[i].0) && IsPlainWord(pairs[i].1)
    ensures var shown := ShowAll(pairs);
      Split(Join(shown, ", "), ",") == [shown[0]] + PrefixAll(shown[1..], " ")
  {
    ShownIsPlain(pairs);
    SplitCommaSpaced(ShowAll(pairs));
  }

  // ---------------------------------------------------------------------------
  // The examples of the unit tests and of the crate documentation
  // ---------------------------------------------------------------------------

  /** The table of the accessor tests (the date-time and float entries are left out with their accessors). */
  const TestTable: map<string, string> :=
    map["foo" := "bar", "int" := "100", "bool" := "t", "duration" := "50",
        "list" := "[1, 2, 3]", "map" := "{a=>1, b=>2, c=>3}"]

  lemma JoinThree(a: string, b: string, c: string, sep: string)
    ensures Join([a, b, c], sep) == a + sep + b + sep + c
  {
    assert [a, b, c][1..] == [b, c] && [b, c][1..] == [c];
    assert Join([b, c], sep) == b + sep + c;
    assert Join([a, b, c], sep) == a + sep + (b + sep + c);
  }

  /**
   * The `default_config!` test: the macro inserts its pairs into a table, so
   * with distinct keys it is the table of those pairs.
   */
  lemma DefaultExample()
    ensures HashMapSource(map["foo" := "bar", "bar" := "baz", "baz" := "foo"]).GetString("foo") == "bar"
  {
  }

  /** The table test: a key that is present and one that is not. */
  lemma HashMapExample()
    ensures HashMapSource(map["foo" := "bar"]).MustGet("foo") == "bar"
    ensures HashMapSource(map["foo" := "bar"]).Get("bar") == None
  {
  }

  lemma StringIntBoolExample()
    ensures HashMapSource(TestTable).GetString("foo") == "bar"
    ensures ParseI64("100") == Some(100) && HashMapSource(TestTable).GetInt("int") == 100
    ensures HashMapSource(TestTable).GetBool("bool")
  {
    ParseShow(100);
    assert Show(100) == "100";
  }

  lemma DurationExample()
    ensures ParseI64("50") == Some(50) && HashMapSource(TestTable).GetDuration("duration") == Seconds(50)
  {
    ParseShow(50);
    assert Show(50) == "50";
  }

  lemma ListExample()
    ensures HashMapSource(TestTable).GetList("list") == ["1", "2", "3"]
  {
    ListRoundTrip("[", ["1", "2", "3"], "]");
    ListText();
  }

  lemma ListText()
    ensures "[" + Join(["1", "2", "3"], ", ") + "]" == "[1, 2, 3]"
  {
    JoinThree("1", "2", "3", ", ");
  }

  lemma MapExample()
    ensures HashMapSource(TestTable).GetMap("map") == map["a" := "1", "b" := "2", "c" := "3"]
  {
    MapRoundTrip("{", [("a", "1"), ("b", "2"), ("c", "3")], "}");
    MapText();
    MapTable();
  }

  lemma MapTable()
    ensures Tables.Collect([("a", "1"), ("b", "2"), ("c", "3")]) == map["a" := "1", "b" := "2", "c" := "3"]
  {
    Tables.CollectOne(("a", "1"));
    Tables.CollectStep([("a", "1")], ("b", "2"));
    Tables.CollectStep([("a", "1"), ("b", "2")], ("c", "3"));
    assert [("a", "1")] + [("b", "2")] == [("a", "1"), ("b", "2")];
    assert [("a", "1"), ("b", "2")] + [("c", "3")] == [("a", "1"), ("b", "2"), ("c", "3")];
  }

  lemma MapText()
    ensures ShowMap([("a", "1"), ("b", "2"), ("c", "3")]) == "{a=>1, b=>2, c=>3}"
  {
    var pairs := [("a", "1"), ("b", "2"), ("c", "3")];
    assert ShowEntry(pairs[0]) == "a=>1" && ShowEntry(pairs[1]) == "b=>2" && ShowEntry(pairs[2]) == "c=>3";
    assert ShowAll(pairs) == ["a=>1", "b=>2", "c=>3"];
    JoinThree("a=>1", "b=>2", "c=>3", ", ");
  }

  /**
   * The crate's opening example: a table in front of a `Simple` source read
   * from `baz=foo`; each key comes from the source that holds it.
   */
  lemma DocExample()
    ensures var cfg := MultiSource([HashMapSource(map["foo" := "bar"]), SimpleSource(Simple.Simple(map["baz" := "foo"]))]);
      cfg.MustGet("foo") == "bar" && cfg.MustGet("baz") == "foo" && cfg.Get("bar") == None
  {
  }

  /** The `Simple` source of the crate's opening example. */
  lemma BazFooParsed()
    ensures Simple.Parsed("baz=foo") == Ok(map["baz" := "foo"])
  {
    BazFooLine();
    Simple.ParsedOneLine("baz=foo", ("baz", "foo"));
  }

  lemma BazFooLine()
    ensures Simple.ParseLine("baz=foo") == Ok(Some(("baz", "foo")))
  {
    Simple.ParsePadded("", "baz", "", "", "foo", "");
    BazFooText();
  }

  lemma BazFooText()
    ensures "" + "baz" + "" + "=" + "" + "foo" + "" == "baz=foo"
  {
  }
}
