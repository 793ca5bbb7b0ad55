/** A map split into shards by a routing function. */
module Sharding {

  ghost predicate Holds<P, H, I>(route: H -> P, shards: map<P, map<H, I>>, items: map<H, I>)
  {
    && (forall p, hash {:trigger hash in shards[p]} :: p in shards && hash in shards[p] ==>
          route(hash) == p && hash in items && items[hash] == shards[p][hash])
    && (forall hash :: hash in items ==> route(hash) in shards && hash in shards[route(hash)])
  }

  function Emptied<P, H, I>(shards: map<P, map<H, I>>): map<P, map<H, I>>
  {
    map p | p in shards :: map[]
  }

  lemma HoldsNothing<P, H, I>(route: H -> P, shards: map<P, map<H, I>>)
    ensures Holds(route, Emptied(shards), map[]) && Emptied(shards).Keys == shards.Keys
  {
  }

  lemma HoldsWith<P, H, I>(route: H -> P, shards: map<P, map<H, I>>, items: map<H, I>, hash: H, item: I)
    requires Holds(route, shards, items) && route(hash) in shards
    ensures Holds(route, shards[route(hash) := shards[route(hash)][hash := item]], items[hash := item])
    ensures shards[route(hash) := shards[route(hash)][hash := item]].Keys == shards.Keys
    ensures hash in items <==> hash in shards[route(hash)]
    ensures hash in items ==> items[hash] == shards[route(hash)][hash]
  {
  }

  lemma HoldsWithout<P, H, I>(route: H -> P, shards: map<P, map<H, I>>, items: map<H, I>, p: P, hash: H)
    requires Holds(route, shards, items) && p in shards && hash in shards[p]
    ensures Holds(route, shards[p := shards[p] - {hash}], items - {hash})
    ensures shards[p := shards[p] - {hash}].Keys == shards.Keys
    ensures hash in items && shards[p][hash] == items[hash]
  {
  }

  lemma Lookup<P, H, I>(route: H -> P, shards: map<P, map<H, I>>, items: map<H, I>, hash: H)
    requires Holds(route, shards, items) && route(hash) in shards
    ensures hash in items <==> hash in shards[route(hash)]
    ensures hash in items ==> items[hash] == shards[route(hash)][hash]
  {
  }
}
