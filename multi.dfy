/**
 * A chain of configuration sources: a key is looked up in each source in
 * turn and the first value found wins, so earlier sources override later
 * ones (environment, then an instance file, then a global file, then
 * defaults).
 */
module Multi {
  import opened Wrappers
  import opened Config

  /** Sources consulted in order. */
  datatype MultiConfig = MultiConfig(configs: seq<Source>) {

    /**
     * Asks each source in turn and returns the first value found; `None`
     * when no source holds the key. A chain used as a source inside another
     * chain answers the same.
     */
    method Get(key: string) returns (r: Option<string>)
      ensures r.Some? ==> exists i :: 0 <= i < |configs| && configs[i].Get(key) == r
                                      && forall j :: 0 <= j < i ==> configs[j].Get(key).None?
      ensures r.None? <==> forall i :: 0 <= i < |configs| ==> configs[i].Get(key).None?
      ensures r == MultiSource(configs).Get(key)
    {
      assert MultiSource(configs).Get(key) == FirstFound(configs, key);
      for i := 0 to |configs|
        invariant forall j :: 0 <= j < i ==> configs[j].Get(key).None?
      {
        var found := configs[i].Get(key);
        if found.Some? {
          FirstFoundAt(configs, key, i);
          return found;
        }
      }
      assert FirstFound(configs, key).None?;
      return None;
    }
  }

  /** A chain of the given sources, in the given order. */
  function New(configs: seq<Source>): (m: MultiConfig)
    ensures m.configs == configs
  {
    MultiConfig(configs)
  }

  /** Putting a source in front of a chain overrides exactly the keys it holds. */
  lemma FrontOverrides(front: Source, rest: seq<Source>, key: string)
    ensures front.Get(key).Some? ==> MultiSource([front] + rest).Get(key) == front.Get(key)
    ensures front.Get(key).None? ==> MultiSource([front] + rest).Get(key) == MultiSource(rest).Get(key)
  {
    assert ([front] + rest)[1..] == rest;
  }

  /** The chain test: the first table overrides the second for `foo`; each other key comes from the table that holds it. */
  lemma MultiExample()
    ensures var m1 := HashMapSource(map["foo" := "bar", "bar" := "baz"]);
      var m2 := HashMapSource(map["foo" := "buz", "buz" := "foo"]);
      var mc := MultiSource([m2, m1]);
      mc.Get("foo") == Some("buz") && mc.Get("bar") == Some("baz") && mc.Get("buz") == Some("foo")
  {
    var m1 := HashMapSource(map["foo" := "bar", "bar" := "baz"]);
    var m2 := HashMapSource(map["foo" := "buz", "buz" := "foo"]);
    FrontOverrides(m2, [m1], "bar");
    FrontOverrides(m1, [], "bar");
    assert [m2, m1] == [m2] + [m1] && [m1] == [m1] + [];
  }
}
