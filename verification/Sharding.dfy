/** A map split over shards by an index function, and the flat map it stands for. */
module Sharding {

  /** The shards hold exactly the entries of `flat`, each key in the shard `index` gives it. */
  ghost predicate Represents<T>(shards: seq<map<string, T>>, index: string -> nat, flat: map<string, T>) {
    && (forall id :: index(id) < |shards|)
    && (forall i, id :: 0 <= i < |shards| && id in shards[i] ==> index(id) == i && id in flat && flat[id] == shards[i][id])
    && (forall id :: id in flat ==> id in shards[index(id)])
  }

  /** Looking a key up in its own shard is looking it up in the flat map. */
  lemma Lookup<T>(shards: seq<map<string, T>>, index: string -> nat, flat: map<string, T>, id: string)
    requires Represents(shards, index, flat)
    ensures index(id) < |shards|
    ensures id in flat <==> id in shards[index(id)]
    ensures id in flat ==> flat[id] == shards[index(id)][id]
  {
  }

  /** Storing a key in its own shard is storing it in the flat map. */
  lemma Store<T>(shards: seq<map<string, T>>, index: string -> nat, flat: map<string, T>, id: string, v: T)
    requires Represents(shards, index, flat)
    ensures Represents(shards[index(id) := shards[index(id)][id := v]], index, flat[id := v])
  {
    var shards' := shards[index(id) := shards[index(id)][id := v]];
    forall i, k | 0 <= i < |shards'| && k in shards'[i]
      ensures index(k) == i && k in flat[id := v] && flat[id := v][k] == shards'[i][k]
    {
      if k != id { assert k in shards[i]; }
    }
  }

  /** Dropping keys from their own shard is dropping them from the flat map. */
  lemma Drop<T>(shards: seq<map<string, T>>, index: string -> nat, flat: map<string, T>, i: nat, ids: set<string>)
    requires Represents(shards, index, flat) && i < |shards| && forall id <- ids :: index(id) == i
    ensures Represents(shards[i := shards[i] - ids], index, flat - ids)
  {
  }
}
