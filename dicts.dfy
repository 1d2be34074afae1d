/** `merge(*dicts)`: the union of several dictionaries, where a later one
    overrides an earlier one on a shared key. */
module Dicts {

  /** `i` is the last of `dicts` that holds `key`. */
  predicate LastHolder<K, V>(dicts: seq<map<K, V>>, key: K, i: int) {
    0 <= i < |dicts| && key in dicts[i] && forall j :: i < j < |dicts| ==> key !in dicts[j]
  }

  /** `merge`: `result.update(d)` for every `d` in turn. */
  method Merge<K, V>(dicts: seq<map<K, V>>) returns (result: map<K, V>)
    ensures forall key :: key in result <==> exists i :: 0 <= i < |dicts| && key in dicts[i]
    ensures forall key, i :: LastHolder(dicts, key, i) ==> key in result && result[key] == dicts[i][key]
  {
    result := map[];
    for n := 0 to |dicts|
      invariant forall key :: key in result <==> exists i :: 0 <= i < n && key in dicts[i]
      invariant forall key, i :: LastHolder(dicts[..n], key, i) ==> key in result && result[key] == dicts[i][key]
    {
      var before := result;
      result := result + dicts[n];
      forall key, i | LastHolder(dicts[..n + 1], key, i)
        ensures key in result && result[key] == dicts[i][key]
      {
        if i < n {
          assert key !in dicts[n] by {
            assert dicts[..n + 1][n] == dicts[n];
          }
          assert LastHolder(dicts[..n], key, i) by {
            forall j | i < j < n ensures key !in dicts[..n][j] {
              assert dicts[..n][j] == dicts[..n + 1][j];
            }
          }
        }
      }
    }
    assert dicts[..|dicts|] == dicts;
  }
}
