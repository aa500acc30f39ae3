/** The two dictionary behaviours the lookup tables rely on: a dict
    comprehension over a sequence of key/value pairs, where a later pair
    overwrites an earlier one with the same key, and a subscript that raises
    KeyError for a missing key. */
module Dicts {
  import opened Wrappers

  /** `{k: v for k, v in pairs}`: insertion in order, so the last pair for a key wins. */
  function FromPairs<K(==), V>(pairs: seq<(K, V)>): (d: map<K, V>)
    ensures d.Keys == set i | 0 <= i < |pairs| :: pairs[i].0
    decreases |pairs|
  {
    if pairs == [] then map[]
    else
      var last := pairs[|pairs| - 1];
      var d := FromPairs(pairs[..|pairs| - 1]);
      assert forall i :: 0 <= i < |pairs| - 1 ==> pairs[..|pairs| - 1][i] == pairs[i];
      d[last.0 := last.1]
  }

  /** Pair `i` holds the last occurrence of its key. */
  ghost predicate IsLastFor<K, V>(pairs: seq<(K, V)>, i: int) {
    0 <= i < |pairs| && forall j :: i < j < |pairs| ==> pairs[j].0 != pairs[i].0
  }

  /** The value kept for a key is the one of its last pair. */
  lemma {:induction false} FromPairsLastWins<K, V>(pairs: seq<(K, V)>, i: int)
    requires IsLastFor(pairs, i)
    ensures pairs[i].0 in FromPairs(pairs)
    ensures FromPairs(pairs)[pairs[i].0] == pairs[i].1
    decreases |pairs|
  {
    if i < |pairs| - 1 {
      var init := pairs[..|pairs| - 1];
      assert init[i] == pairs[i];
      assert IsLastFor(init, i);
      FromPairsLastWins(init, i);
    }
  }

  /** Every entry of the dictionary is the last pair of its key. */
  lemma FromPairsSound<K, V>(pairs: seq<(K, V)>, k: K)
    requires k in FromPairs(pairs)
    ensures exists i :: IsLastFor(pairs, i) && pairs[i] == (k, FromPairs(pairs)[k])
  {
    var i0 :| 0 <= i0 < |pairs| && pairs[i0].0 == k;
    var i := LastIndexFrom(pairs, i0);
    FromPairsLastWins(pairs, i);
  }

  /** The last index at or after `from` holding the key of pair `from`. */
  lemma {:induction false} LastIndexFrom<K, V>(pairs: seq<(K, V)>, from: int) returns (i: int)
    requires 0 <= from < |pairs|
    ensures from <= i && IsLastFor(pairs, i) && pairs[i].0 == pairs[from].0
    decreases |pairs| - from
  {
    if j :| from < j < |pairs| && pairs[j].0 == pairs[from].0 {
      i := LastIndexFrom(pairs, j);
    } else {
      i := from;
    }
  }

  /** `d[key]`: the value, or KeyError carrying the key. */
  function Get(d: map<string, string>, key: string): (r: Result<string, Error>) {
    if key in d then Ok(d[key]) else Err(KeyError(key))
  }
}
