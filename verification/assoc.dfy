/** Dictionaries built from key/value pairs in order, where a later pair overwrites an earlier one. */
module Assoc {

  /** `d = {}; for k, v in pairs: d[k] = v` */
  function LastWins<K, V>(pairs: seq<(K, V)>): (d: map<K, V>)
    ensures d.Keys == set i | 0 <= i < |pairs| :: pairs[i].0
    decreases |pairs|
  {
    if pairs == [] then map[]
    else
      var init := pairs[..|pairs| - 1];
      var d0 := LastWins(init);
      assert forall i :: 0 <= i < |init| ==> init[i] == pairs[i];
      d0[pairs[|pairs| - 1].0 := pairs[|pairs| - 1].1]
  }

  /** The value stored for a key is the one of the last pair with that key. */
  lemma {:induction false} LastWinsValue<K, V>(pairs: seq<(K, V)>, i: int)
    requires 0 <= i < |pairs|
    requires forall j :: i < j < |pairs| ==> pairs[j].0 != pairs[i].0
    ensures pairs[i].0 in LastWins(pairs) && LastWins(pairs)[pairs[i].0] == pairs[i].1
    decreases |pairs|
  {
    if i < |pairs| - 1 {
      var init := pairs[..|pairs| - 1];
      assert init[i] == pairs[i];
      LastWinsValue(init, i);
    }
  }

  /** Each pair whose key is in `vals` gets the value from `vals`; the others are kept. */
  function UpdateValues<K, V>(pairs: seq<(K, V)>, vals: map<K, V>): (r: seq<(K, V)>)
    ensures |r| == |pairs|
    decreases |pairs|
  {
    if pairs == [] then []
    else
      var last := pairs[|pairs| - 1];
      UpdateValues(pairs[..|pairs| - 1], vals) + [(last.0, if last.0 in vals then vals[last.0] else last.1)]
  }

  /**
   * Updating the pairs in place and then building the dictionary gives the
   * old dictionary with the values of `vals` for its existing keys: no key is
   * added and no key is lost.
   */
  lemma {:induction false} LastWinsUpdate<K, V>(pairs: seq<(K, V)>, vals: map<K, V>)
    ensures LastWins(UpdateValues(pairs, vals))
         == map k | k in LastWins(pairs) :: if k in vals then vals[k] else LastWins(pairs)[k]
    decreases |pairs|
  {
    if pairs != [] {
      var init := pairs[..|pairs| - 1];
      var last := pairs[|pairs| - 1];
      LastWinsUpdate(init, vals);
      var u := UpdateValues(pairs, vals);
      assert u[..|u| - 1] == UpdateValues(init, vals);
      assert u[|u| - 1] == (last.0, if last.0 in vals then vals[last.0] else last.1);
      UpdatedAfterStore(LastWins(init), vals, last.0, last.1);
    }
  }

  /** Storing `k` and then updating gives what updating and then storing `k`'s updated value gives. */
  lemma UpdatedAfterStore<K, V>(m: map<K, V>, vals: map<K, V>, k: K, v: V)
    ensures (map x | x in m :: if x in vals then vals[x] else m[x])[k := if k in vals then vals[k] else v]
         == map x | x in m[k := v] :: if x in vals then vals[x] else m[k := v][x]
  {
  }

  /** Each updated pair is the original pair, with the value from `vals` when its key is there. */
  lemma {:induction false} UpdateValuesAt<K, V>(pairs: seq<(K, V)>, vals: map<K, V>, i: int)
    requires 0 <= i < |pairs|
    ensures UpdateValues(pairs, vals)[i]
         == (pairs[i].0, if pairs[i].0 in vals then vals[pairs[i].0] else pairs[i].1)
    decreases |pairs|
  {
    if i < |pairs| - 1 {
      var init := pairs[..|pairs| - 1];
      UpdateValuesAt(init, vals, i);
    }
  }
}
