/**
 * String tables built from a sequence of key/value pairs, each pair inserted
 * in turn so that a later pair overwrites an earlier one with the same key.
 * This is what inserting into a `HashMap` in a loop, or collecting pairs into
 * one, produces.
 */
module Tables {

  /** Index `i` holds the last pair whose key is `pairs[i].0`. */
  predicate IsLastFor(pairs: seq<(string, string)>, i: int)
    requires 0 <= i < |pairs|
  {
    IsLastBefore(pairs, |pairs|, i)
  }

  /** Among the first `n` pairs, index `i` holds the last one whose key is `pairs[i].0`. */
  predicate IsLastBefore(pairs: seq<(string, string)>, n: nat, i: int)
    requires 0 <= i < n <= |pairs|
  {
    forall j :: i < j < n ==> pairs[j].0 != pairs[i].0
  }

  /**
   * `m` is what inserting `pairs` in order leaves: exactly their keys, each
   * holding the value of the last pair with that key.
   */
  ghost predicate IsCollected(pairs: seq<(string, string)>, m: map<string, string>) {
    && (forall k :: k in m <==> exists i :: 0 <= i < |pairs| && pairs[i].0 == k)
    && (forall i :: 0 <= i < |pairs| && IsLastFor(pairs, i) ==> pairs[i].0 in m && m[pairs[i].0] == pairs[i].1)
  }

  /** The table obtained by inserting `pairs` in order into an empty table. */
  function Collect(pairs: seq<(string, string)>): (m: map<string, string>)
    ensures IsCollected(pairs, m)
  {
    CollectFirstKeys(pairs, |pairs|);
    CollectFirstLast(pairs, |pairs|);
    CollectFirst(pairs, |pairs|)
  }

  /** The table obtained by inserting the first `n` of `pairs` in order. */
  function CollectFirst(pairs: seq<(string, string)>, n: nat): map<string, string>
    requires n <= |pairs|
  {
    if n == 0 then map[] else CollectFirst(pairs, n - 1)[pairs[n - 1].0 := pairs[n - 1].1]
  }

  /** The keys of the table are the keys of the first `n` pairs. */
  lemma {:induction false} CollectFirstKeys(pairs: seq<(string, string)>, n: nat)
    requires n <= |pairs|
    ensures forall k :: k in CollectFirst(pairs, n) <==> exists i :: 0 <= i < n && pairs[i].0 == k
  {
    if n > 0 {
      CollectFirstKeys(pairs, n - 1);
    }
  }

  /** Each key holds the value of the last of the first `n` pairs with that key. */
  lemma {:induction false} CollectFirstLast(pairs: seq<(string, string)>, n: nat)
    requires n <= |pairs|
    ensures forall i :: 0 <= i < n && IsLastBefore(pairs, n, i) ==>
      pairs[i].0 in CollectFirst(pairs, n) && CollectFirst(pairs, n)[pairs[i].0] == pairs[i].1
  {
    if n > 0 {
      var before := CollectFirst(pairs, n - 1);
      CollectFirstLast(pairs, n - 1);
      forall i | 0 <= i < n && IsLastBefore(pairs, n, i)
        ensures pairs[i].0 in CollectFirst(pairs, n) && CollectFirst(pairs, n)[pairs[i].0] == pairs[i].1
      {
        if i < n - 1 {
          assert pairs[n - 1].0 != pairs[i].0;
          assert IsLastBefore(pairs, n - 1, i);
          assert before[pairs[i].0] == pairs[i].1;
        }
      }
    }
  }

  /** Pairs after the first `n` do not change the table of the first `n`. */
  lemma {:induction false} CollectFirstPrefix(pairs: seq<(string, string)>, more: seq<(string, string)>, n: nat)
    requires n <= |pairs|
    ensures CollectFirst(pairs + more, n) == CollectFirst(pairs, n)
  {
    if n > 0 {
      CollectFirstPrefix(pairs, more, n - 1);
      assert (pairs + more)[n - 1] == pairs[n - 1];
    }
  }

  /** Inserting one more pair. */
  lemma CollectStep(pairs: seq<(string, string)>, kv: (string, string))
    ensures Collect(pairs + [kv]) == Collect(pairs)[kv.0 := kv.1]
  {
    CollectFirstPrefix(pairs, [kv], |pairs|);
  }

  /** One pair gives a table of one key. */
  lemma CollectOne(kv: (string, string))
    ensures Collect([kv]) == map[kv.0 := kv.1]
  {
    CollectStep([], kv);
  }

  /** Each key of the table holds the value of the last pair with that key. */
  lemma CollectLastWins(pairs: seq<(string, string)>, k: string)
    requires k in Collect(pairs)
    ensures exists i :: 0 <= i < |pairs| && pairs[i].0 == k && IsLastFor(pairs, i) && Collect(pairs)[k] == pairs[i].1
  {
    var i :| 0 <= i < |pairs| && pairs[i].0 == k;
    while !IsLastFor(pairs, i)
      invariant 0 <= i < |pairs| && pairs[i].0 == k
      decreases |pairs| - i
    {
      var j :| i < j < |pairs| && pairs[j].0 == k;
      i := j;
    }
  }
}
