/** A `Map` used as a set of counters: each key given to it in turn creates
    its counter at zero when it is new (the map remembers insertion order)
    and then increments it. */
module Counters {
  import opened Seqs

  /** The distinct keys of `keys` in the order they first occur: the key
      order of the map after it has been given `keys`. */
  function FirstSeen<K(==)>(keys: seq<K>): (r: seq<K>)
    ensures |r| <= |keys|
    decreases |keys|
  {
    if keys == [] then []
    else
      var r := FirstSeen(keys[..|keys| - 1]);
      if keys[|keys| - 1] in r then r else r + [keys[|keys| - 1]]
  }

  /** The counters of the map after it has been given `keys`. */
  function Counts<K(==)>(keys: seq<K>): map<K, nat>
    decreases |keys|
  {
    if keys == [] then map[]
    else
      var m := Counts(keys[..|keys| - 1]);
      var k := keys[|keys| - 1];
      m[k := (if k in m then m[k] else 0) + 1]
  }

  /** Giving the map one more key. */
  lemma Step<K>(keys: seq<K>, k: K)
    ensures FirstSeen(keys + [k]) == if k in Counts(keys) then FirstSeen(keys) else FirstSeen(keys) + [k]
    ensures Counts(keys + [k]) == Counts(keys)[k := (if k in Counts(keys) then Counts(keys)[k] else 0) + 1]
  {
    assert (keys + [k])[..|keys|] == keys;
    SameKeys(keys);
  }

  /** The key order lists every key given, each exactly once. */
  lemma {:induction false} FirstSeenSpec<K>(keys: seq<K>)
    ensures forall k :: k in FirstSeen(keys) <==> k in keys
    ensures NoDuplicates(FirstSeen(keys))
    decreases |keys|
  {
    if keys != [] {
      var keys' := keys[..|keys| - 1];
      FirstSeenSpec(keys');
      assert keys == keys' + [keys[|keys| - 1]];
    }
  }

  /** There is a counter exactly for each key given, and it holds the
      number of times that key was given. */
  lemma {:induction false} CountsSpec<K>(keys: seq<K>)
    ensures forall k :: k in Counts(keys) <==> k in keys
    ensures forall k :: k in Counts(keys) ==> Counts(keys)[k] == multiset(keys)[k]
    decreases |keys|
  {
    if keys != [] {
      var keys' := keys[..|keys| - 1];
      CountsSpec(keys');
      assert keys == keys' + [keys[|keys| - 1]];
    }
  }

  /** A key of the order has a counter, holding how often the key was given. */
  lemma CounterOf<K>(keys: seq<K>, k: K)
    requires k in FirstSeen(keys)
    ensures k in Counts(keys) && Counts(keys)[k] == multiset(keys)[k] && multiset(keys)[k] > 0
  {
    FirstSeenSpec(keys);
    CountsSpec(keys);
  }

  /** The key order and the counters agree on which keys there are. */
  lemma SameKeys<K>(keys: seq<K>)
    ensures forall k :: k in Counts(keys) <==> k in FirstSeen(keys)
  {
    FirstSeenSpec(keys);
    CountsSpec(keys);
  }
}
