/**
 * Configuration read from environment variables. A key is turned into a
 * variable name by putting the source's prefix in front of it, replacing
 * every `.` and `/` by `_` and upper-casing the result. The process
 * environment is passed in as a table from variable names to values.
 */
module Env {
  import opened Wrappers
  import opened Text

  /** An environment source; `prefix` is put in front of every key. */
  datatype Environment = Environment(prefix: string) {

    /** The name of the environment variable that holds `key`. */
    function VarName(key: string): (name: string)
      ensures |name| == |prefix| + |key|
      ensures forall i :: 0 <= i < |name| ==> name[i] == EnvChar((prefix + key)[i])
    {
      ToUpper(Replace(Replace(prefix + key, '.', '_'), '/', '_'))
    }

    /** The value of the variable named after `key` in `vars`, if it is set. */
    function Get(vars: map<string, string>, key: string): (r: Option<string>)
      ensures r.Some? <==> VarName(key) in vars
      ensures r.Some? ==> r.value == vars[VarName(key)]
    {
      var name := VarName(key);
      if name in vars then Some(vars[name]) else None
    }
  }

  /**
   * A source whose keys get `prefix` and an underscore in front of them; an
   * empty prefix puts nothing in front.
   */
  function New(prefix: string): (e: Environment)
    ensures prefix == [] <==> e.prefix == []
    ensures prefix != [] ==> |e.prefix| == |prefix| + 1 && e.prefix[..|prefix|] == prefix && e.prefix[|prefix|] == '_'
  {
    if |prefix| > 0 then Environment(prefix + "_") else Environment("")
  }

  /** What one character of the prefixed key becomes in the variable name. */
  function EnvChar(c: char): (d: char)
    ensures d != '.' && d != '/' && !IsLower(d)
    ensures IsLower(c) ==> d == Upper(c)
    ensures c == '.' || c == '/' ==> d == '_'
    ensures c != '.' && c != '/' && !IsLower(c) ==> d == c
  {
    Upper(if c == '.' || c == '/' then '_' else c)
  }

  /** A variable name holds no `.`, no `/` and no lower-case letter. */
  lemma VarNameIsClean(e: Environment, key: string)
    ensures '.' !in e.VarName(key) && '/' !in e.VarName(key)
    ensures forall i :: 0 <= i < |e.VarName(key)| ==> !IsLower(e.VarName(key)[i])
  {
    var name := e.VarName(key);
    assert forall i :: 0 <= i < |name| ==> name[i] != '.' && name[i] != '/';
  }

  /**
   * Keys whose characters map to the same variable-name characters, such as
   * `foo.bar`, `foo/bar` and `FOO_BAR`, read the same variable.
   */
  lemma {:induction false} SameVarName(e: Environment, k1: string, k2: string)
    requires |k1| == |k2|
    requires forall i :: 0 <= i < |k1| ==> EnvChar(k1[i]) == EnvChar(k2[i])
    ensures e.VarName(k1) == e.VarName(k2)
    ensures forall vars :: e.Get(vars, k1) == e.Get(vars, k2)
  {
    var n1, n2 := e.VarName(k1), e.VarName(k2);
    forall i | 0 <= i < |n1| ensures n1[i] == n2[i] {
      if i < |e.prefix| {
        assert (e.prefix + k1)[i] == (e.prefix + k2)[i];
      } else {
        assert (e.prefix + k1)[i] == k1[i - |e.prefix|];
        assert (e.prefix + k2)[i] == k2[i - |e.prefix|];
      }
    }
  }

  /** A prefix reads exactly the variables that key-by-key prefixing with `prefix_` reads. */
  lemma PrefixIsPartOfName(prefix: string, key: string)
    requires prefix != []
    ensures New(prefix).VarName(key) == New("").VarName(prefix + "_" + key)
  {
    assert New(prefix).prefix + key == [] + (prefix + "_" + key);
  }

  /** A variable name, used as a key without prefix, names itself. */
  lemma VarNameIdempotent(key: string)
    ensures New("").VarName(New("").VarName(key)) == New("").VarName(key)
  {
    var e := New("");
    var name := e.VarName(key);
    assert forall i :: 0 <= i < |name| ==> (e.prefix + name)[i] == name[i];
  }

  /** A name that agrees with the prefixed key character by character is the variable name. */
  lemma VarNameIs(e: Environment, key: string, name: string)
    requires |name| == |e.prefix| + |key|
    requires forall i :: 0 <= i < |name| ==> name[i] == EnvChar((e.prefix + key)[i])
    ensures e.VarName(key) == name
  {
  }

  /** The examples of the constructor's documentation and tests. */
  lemma NewExamples()
    ensures New("test") == Environment("test_")
    ensures New("") == Environment("")
    ensures New("foo").VarName("my.app.secret") == "FOO_MY_APP_SECRET"
  {
    VarNameIs(New("foo"), "my.app.secret", "FOO_MY_APP_SECRET");
  }

  /** The environment test: `foo.bar` and `foo/bar` read `TEST_GET_FOO_BAR`, and nothing once it is unset. */
  lemma GetExample()
    ensures New("test_get").Get(map["TEST_GET_FOO_BAR" := "baz"], "foo.bar") == Some("baz")
    ensures New("test_get").Get(map["TEST_GET_FOO_BAR" := "baz"], "foo/bar") == Some("baz")
    ensures New("test_get").Get(map[], "foo.bar") == None
  {
    VarNameIs(New("test_get"), "foo.bar", "TEST_GET_FOO_BAR");
    VarNameIs(New("test_get"), "foo/bar", "TEST_GET_FOO_BAR");
  }
}
