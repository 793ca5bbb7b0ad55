/** The index of the memory cache: items in shards, a counter and a byte total (internal/caches/list_memory.go). */
module MemoryList {
  import opened Decimal
  import opened Sharding
  import opened Sums
  import opened Wrappers

  datatype Item = Item(
    key: string, host: string, expiresAt: int, headerSize: nat, bodySize: nat, metaSize: nat, week: int)
  {
    function TotalSize(): nat { headerSize + bodySize + metaSize + |key| + |host| }
    predicate IsExpired(now: int) { expiresAt < now }
  }

  type Items = map<string, Item>
  type Shards = map<string, Items>

  const DEFAULT_PREFIX := "000"
  const MAX_CAREFUL_ROUNDS := 3

  /** The shard of a hash, given the shards there are. */
  function ShardOf(prefixes: set<string>, hash: string): string
  {
    var prefix := if |hash| > 3 then hash[..3] else hash;
    if prefix in prefixes then prefix else DEFAULT_PREFIX
  }

  function Sizes(items: Items): map<string, int>
  {
    map hash | hash in items :: items[hash].TotalSize()
  }

  /** The bytes of all items. */
  ghost function SizeOf(items: Items): int { MapSum(Sizes(items)) }

  /** The bytes of one item, if it is there: its sizes and the lengths of its texts. */
  function BytesOf(items: Items, hash: string): int
  {
    if hash !in items then 0
    else
      var i := items[hash];
      i.headerSize + i.bodySize + i.metaSize + |i.key| + |i.host|
  }

  // ---------- one item more or less ----------

  lemma SizeWithout(items: Items, hash: string)
    requires hash in items
    ensures SizeOf(items - {hash}) == SizeOf(items) - items[hash].TotalSize()
    ensures |items - {hash}| == |items| - 1
  {
    MapSumRemove(Sizes(items), hash);
    assert Sizes(items) - {hash} == Sizes(items - {hash});
    assert (items - {hash}).Keys == items.Keys - {hash};
    assert |items - {hash}| == |(items - {hash}).Keys|;
  }

  lemma UsedWithout(items: Items, hash: string, used: int, now: int, lost: int)
    requires used == SizeOf(items) - lost && now == SizeOf(items - {hash}) - lost
    ensures now == used - BytesOf(items, hash)
  {
    if hash in items {
      SizeWithout(items, hash);
    } else {
      assert items - {hash} == items;
    }
  }

  lemma NothingHasNoSize()
    ensures SizeOf(map[]) == 0
  {
    assert Sizes(map[]) == map[];
  }

  lemma SizeShrinks(items: Items, hash: string)
    ensures SizeOf(items - {hash}) <= SizeOf(items)
  {
    if hash in items {
      SizeWithout(items, hash);
    } else {
      assert items - {hash} == items;
    }
  }

  lemma SizesWith(items: Items, hash: string, item: Item)
    ensures Sizes(items[hash := item]) == Sizes(items)[hash := item.TotalSize()]
  {
  }

  lemma SizeWith(items: Items, hash: string, item: Item)
    ensures SizeOf(items[hash := item])
         == SizeOf(items) + item.TotalSize() - (if hash in items then items[hash].TotalSize() else 0)
  {
    SizesWith(items, hash, item);
    MapSumUpdate(Sizes(items), hash, item.TotalSize());
  }

  lemma CountWith(items: Items, hash: string, item: Item)
    ensures |items[hash := item]| == |items| + (if hash in items then 0 else 1)
  {
    assert items[hash := item].Keys == items.Keys + {hash};
    assert |items[hash := item]| == |items[hash := item].Keys|;
  }

  lemma HitKeepsSize(items: Items, hash: string, week: int)
    requires hash in items
    ensures var after := items[hash := items[hash].(week := week)]; SizeOf(after) == SizeOf(items) && |after| == |items|
  {
    SizeWith(items, hash, items[hash].(week := week));
    CountWith(items, hash, items[hash].(week := week));
  }

  /** Where each hash goes, given the shards there are. */
  function Router(prefixes: set<string>): string -> string
  {
    hash => ShardOf(prefixes, hash)
  }

  // ---------- what eviction promises ----------

  predicate IsRecent(item: Item, week: int) { week - item.week <= 1 }

  /** The evictable items of one shard. */
  function Stale(items: Items, prefixes: set<string>, p: string, week: int): set<string>
  {
    set hash | hash in items && ShardOf(prefixes, hash) == p && week - items[hash].week > 1
  }

  ghost predicate OnlyStale(items: Items, removed: set<string>, week: int)
  {
    forall hash :: hash in removed && hash in items ==> !IsRecent(items[hash], week)
  }

  function Min(a: int, b: int): int { if a <= b then a else b }

  /** Shard p has given up one stale item for each of `rounds` rounds, or all it had. */
  ghost predicate GaveUp(items: Items, prefixes: set<string>, p: string, week: int, removed: set<string>, rounds: nat)
  {
    |removed * Stale(items, prefixes, p, week)| >= Min(rounds, |Stale(items, prefixes, p, week)|)
  }

  lemma GaveUpAll(items: Items, prefixes: set<string>, p: string, week: int, removed: set<string>, rounds: nat)
    requires Stale(items - removed, prefixes, p, week) == {}
    ensures GaveUp(items, prefixes, p, week, removed, rounds)
  {
    var stale := Stale(items, prefixes, p, week);
    forall hash | hash in stale ensures hash in removed {
      assert hash in items - removed ==> hash in Stale(items - removed, prefixes, p, week);
    }
    assert removed * stale == stale;
  }

  lemma GaveUpOneMore(items: Items, prefixes: set<string>, p: string, week: int, removed: set<string>, rounds: nat,
      hash: string)
    requires GaveUp(items, prefixes, p, week, removed, rounds)
    requires hash in Stale(items - removed, prefixes, p, week)
    ensures GaveUp(items, prefixes, p, week, removed + {hash}, rounds + 1)
  {
    var stale := Stale(items, prefixes, p, week);
    assert (removed + {hash}) * stale == removed * stale + {hash};
  }

  lemma GaveUpGrows(items: Items, prefixes: set<string>, p: string, week: int, removed: set<string>, more: set<string>,
      rounds: nat)
    requires GaveUp(items, prefixes, p, week, removed, rounds) && removed <= more
    ensures GaveUp(items, prefixes, p, week, more, rounds)
  {
    SubsetSize(removed * Stale(items, prefixes, p, week), more * Stale(items, prefixes, p, week));
  }

  /** How many items the careful rounds can take: up to three stale ones from each shard. */
  ghost function CarefulCapacity(items: Items, prefixes: set<string>, week: int): int
  {
    MapSum(CarefulShares(items, prefixes, week, prefixes))
  }

  function CarefulShares(items: Items, prefixes: set<string>, week: int, part: set<string>): map<string, int>
  {
    map p | p in part :: Min(3, |Stale(items, prefixes, p, week)|)
  }

  /** The stale items among the removed ones, from some of the shards. */
  function Given(items: Items, prefixes: set<string>, week: int, removed: set<string>, part: set<string>): set<string>
  {
    set hash | hash in removed && hash in items && ShardOf(prefixes, hash) in part && !IsRecent(items[hash], week)
  }

  lemma GivenSplit(items: Items, prefixes: set<string>, week: int, removed: set<string>, part: set<string>, p: string)
    requires p in part
    ensures |Given(items, prefixes, week, removed, part)|
         == |Given(items, prefixes, week, removed, part - {p})| + |removed * Stale(items, prefixes, p, week)|
  {
    var others, own := Given(items, prefixes, week, removed, part - {p}), removed * Stale(items, prefixes, p, week);
    assert Given(items, prefixes, week, removed, part) == others + own && others !! own;
  }

  lemma SharesSplit(items: Items, prefixes: set<string>, week: int, part: set<string>, p: string)
    requires p in part
    ensures MapSum(CarefulShares(items, prefixes, week, part))
         == Min(MAX_CAREFUL_ROUNDS, |Stale(items, prefixes, p, week)|)
            + MapSum(CarefulShares(items, prefixes, week, part - {p}))
  {
    MapSumRemove(CarefulShares(items, prefixes, week, part), p);
    assert CarefulShares(items, prefixes, week, part) - {p} == CarefulShares(items, prefixes, week, part - {p});
  }

  lemma {:induction false} SharesAreRemoved(items: Items, prefixes: set<string>, week: int, removed: set<string>,
      part: set<string>)
    requires forall p :: p in part ==> GaveUp(items, prefixes, p, week, removed, MAX_CAREFUL_ROUNDS)
    ensures MapSum(CarefulShares(items, prefixes, week, part)) <= |Given(items, prefixes, week, removed, part)|
    decreases part
  {
    if part == {} {
      assert CarefulShares(items, prefixes, week, part) == map[];
    } else {
      var p :| p in part;
      SharesAreRemoved(items, prefixes, week, removed, part - {p});
      SharesSplit(items, prefixes, week, part, p);
      GivenSplit(items, prefixes, week, removed, part, p);
    }
  }

  /** If every shard has given up its share and a recent item has gone too, more was asked for than the careful rounds
      can take. */
  lemma RecentMeansShortage(items: Items, prefixes: set<string>, week: int, removed: set<string>, hash: string)
    requires hash in removed && hash in items && IsRecent(items[hash], week)
    requires forall p :: p in prefixes ==> GaveUp(items, prefixes, p, week, removed, MAX_CAREFUL_ROUNDS)
    ensures |removed| > CarefulCapacity(items, prefixes, week)
  {
    SharesAreRemoved(items, prefixes, week, removed, prefixes);
    SubsetSize(Given(items, prefixes, week, removed, prefixes) + {hash}, removed);
  }

  function Gone(before: Items, after: Items): set<string> { before.Keys - after.Keys }

  /** After some evictions: nothing but the evicted items changed, and there are as many as counted. */
  ghost predicate EvictedSoFar(before: Items, after: Items, evictions: int)
  {
    after == before - Gone(before, after) && |Gone(before, after)| == evictions
  }

  lemma EvictOneMore(before: Items, after: Items, evictions: int, hash: string)
    requires EvictedSoFar(before, after, evictions) && hash in after
    ensures EvictedSoFar(before, after - {hash}, evictions + 1) && hash in before && before[hash] == after[hash]
    ensures Gone(before, after - {hash}) == Gone(before, after) + {hash}
  {
    assert Gone(before, after - {hash}) == Gone(before, after) + {hash};
  }

  /** All shards have given up their share of so many rounds. */
  ghost predicate AllGaveUp(before: Items, after: Items, prefixes: set<string>, week: int, rounds: nat)
  {
    forall p :: p in prefixes ==> GaveUp(before, prefixes, p, week, Gone(before, after), rounds)
  }

  /** Evicting `count` items takes exactly that many if there are as many, and takes a recently used one only after every
      shard has given up three stale items or all it had. */
  ghost predicate Evicted(before: Items, after: Items, prefixes: set<string>, week: int, count: int)
  {
    && EvictedSoFar(before, after, Min(count, |before|))
    && (OnlyStale(before, Gone(before, after), week) || AllGaveUp(before, after, prefixes, week, MAX_CAREFUL_ROUNDS))
  }

  /** While the careful rounds suffice, no recently used item goes. */
  lemma RecentItemsAreKept(before: Items, after: Items, prefixes: set<string>, week: int, count: int)
    requires Evicted(before, after, prefixes, week, count) && count <= CarefulCapacity(before, prefixes, week)
    ensures OnlyStale(before, Gone(before, after), week)
  {
    if !OnlyStale(before, Gone(before, after), week) {
      var hash :| hash in Gone(before, after) && hash in before && IsRecent(before[hash], week);
      RecentMeansShortage(before, prefixes, week, Gone(before, after), hash);
    }
  }

  /** Where a round stands: the shards of `done` have given up their share of this round, the others that of the last. */
  ghost predicate InRound(before: Items, after: Items, prefixes: set<string>, week: int, round: nat, done: set<string>)
  {
    && (round <= MAX_CAREFUL_ROUNDS ==> OnlyStale(before, Gone(before, after), week))
    && (forall p :: p in prefixes ==> GaveUp(before, prefixes, p, week, Gone(before, after), Shares(round, p in done)))
  }

  function Shares(round: nat, isDone: bool): nat
  {
    var rounds := if isDone || round == 0 then round else round - 1;
    if rounds <= MAX_CAREFUL_ROUNDS then rounds else MAX_CAREFUL_ROUNDS
  }

  /** A shard is done after one visit, whether something went or not. */
  lemma VisitKeepsRound(before: Items, items: Items, after: Items, prefixes: set<string>, week: int, round: nat,
      done: set<string>, p: string, evicted: Option<string>, evictions: int)
    requires EvictedSoFar(before, items, evictions) && InRound(before, items, prefixes, week, round, done)
    requires p in prefixes && p !in done && round > 0
    requires match evicted
             case None => after == items && (round <= MAX_CAREFUL_ROUNDS ==> Stale(items, prefixes, p, week) == {})
             case Some(hash) =>
               && hash in items && after == items - {hash}
               && (round <= MAX_CAREFUL_ROUNDS ==> hash in Stale(items, prefixes, p, week))
    ensures EvictedSoFar(before, after, evictions + if evicted.Some? then 1 else 0)
    ensures InRound(before, after, prefixes, week, round, done + {p})
  {
    if evicted.Some? {
      EvictOneMore(before, items, evictions, evicted.value);
    }
    forall q | q in prefixes
      ensures GaveUp(before, prefixes, q, week, Gone(before, after), Shares(round, q in done + {p}))
    {
      if q == p && round <= MAX_CAREFUL_ROUNDS {
        if evicted.Some? {
          GaveUpOneMore(before, prefixes, p, week, Gone(before, items), round - 1, evicted.value);
        } else {
          GaveUpAll(before, prefixes, p, week, Gone(before, items), round);
        }
      } else {
        GaveUpGrows(before, prefixes, q, week, Gone(before, items), Gone(before, after), Shares(round, q in done));
      }
    }
  }

  lemma OneLess(all: set<string>, todo: set<string>, p: string)
    requires p in todo
    ensures all - (todo - {p}) == all - todo + if p in all then {p} else {}
  {
  }

  lemma RoundStops(before: Items, after: Items, prefixes: set<string>, week: int, round: nat, done: set<string>)
    requires InRound(before, after, prefixes, week, round, done)
    ensures InRound(before, after, prefixes, week, round, {})
  {
    forall p | p in prefixes ensures GaveUp(before, prefixes, p, week, Gone(before, after), Shares(round, p in {})) {
      assert GaveUp(before, prefixes, p, week, Gone(before, after), Shares(round, p in done));
    }
  }

  lemma NothingGone(before: Items, prefixes: set<string>, week: int, count: int)
    ensures Between(before, before, prefixes, week, 0, count, count)
  {
    assert Gone(before, before) == {};
  }

  lemma ItemsLeft(before: Items, after: Items, evictions: int)
    requires EvictedSoFar(before, after, evictions)
    ensures |after| == |before| - evictions
  {
    assert after.Keys == before.Keys - Gone(before, after);
    assert |after| == |after.Keys| && |before| == |before.Keys|;
  }

  /** In the middle of a round, with the shards of `todo` still to visit. */
  ghost predicate Visiting(before: Items, after: Items, prefixes: set<string>, evictions: int, week: int, round: nat,
      count: int, todo: set<string>, found: bool, left: int)
  {
    && round > 0 && 0 <= left <= count && todo <= prefixes
    && EvictedSoFar(before, after, evictions + (count - left))
    && InRound(before, after, prefixes, week, round, prefixes - todo)
    && (!found ==> forall hash :: hash in after ==> ShardOf(prefixes, hash) in todo)
    && (found && round > MAX_CAREFUL_ROUNDS ==> left < count)
  }

  ghost predicate RoundOver(before: Items, after: Items, prefixes: set<string>, evictions: int, week: int, round: nat,
      count: int, found: bool, left: int)
  {
    && 0 <= left <= count
    && EvictedSoFar(before, after, evictions + (count - left))
    && InRound(before, after, prefixes, week, round, if left > 0 then prefixes else {})
    && (left > 0 && !found ==> after == map[])
    && (left > 0 && found && round > MAX_CAREFUL_ROUNDS ==> left < count)
  }

  /** Between two rounds. */
  ghost predicate Between(before: Items, after: Items, prefixes: set<string>, week: int, round: nat, count: int, left: int)
  {
    left <= count && EvictedSoFar(before, after, count - left) && InRound(before, after, prefixes, week, round, prefixes)
  }

  lemma VisitMade(before: Items, items: Items, after: Items, prefixes: set<string>, evictions: int, week: int, round: nat,
      count: int, todo: set<string>, p: string, found: bool, left: int, seen: bool, evicted: Option<string>)
    requires Visiting(before, items, prefixes, evictions, week, round, count, todo, found, left) && p in todo && left > 0
    requires match evicted
             case None => after == items && (round <= MAX_CAREFUL_ROUNDS ==> Stale(items, prefixes, p, week) == {})
             case Some(hash) =>
               && hash in items && after == items - {hash}
               && (round <= MAX_CAREFUL_ROUNDS ==> hash in Stale(items, prefixes, p, week))
    requires !seen ==> evicted.None? && forall hash :: hash in items ==> ShardOf(prefixes, hash) != p
    requires seen && round > MAX_CAREFUL_ROUNDS ==> evicted.Some?
    ensures Visiting(before, after, prefixes, evictions, week, round, count, todo - {p}, found || seen,
              if evicted.Some? then left - 1 else left)
  {
    VisitKeepsRound(before, items, after, prefixes, week, round, prefixes - todo, p, evicted, evictions + (count - left));
    OneLess(prefixes, todo, p);
  }

  lemma RoundBegins(before: Items, after: Items, prefixes: set<string>, week: int, round: nat, count: int, left: int)
    requires Between(before, after, prefixes, week, round, count, left)
    ensures EvictedSoFar(before, after, count - left) && InRound(before, after, prefixes, week, round + 1, {})
  {
    forall p | p in prefixes ensures GaveUp(before, prefixes, p, week, Gone(before, after), Shares(round + 1, p in {})) {
      assert GaveUp(before, prefixes, p, week, Gone(before, after), Shares(round, p in prefixes));
    }
  }

  lemma LastVisit(before: Items, after: Items, prefixes: set<string>, evictions: int, week: int, round: nat,
      count: int, todo: set<string>, found: bool, left: int)
    requires Visiting(before, after, prefixes, evictions, week, round, count, todo, found, left)
    requires left == 0 || todo == {}
    ensures RoundOver(before, after, prefixes, evictions, week, round, count, found, left)
  {
    if left == 0 {
      RoundStops(before, after, prefixes, week, round, prefixes - todo);
    } else {
      assert prefixes - todo == prefixes;
      assert !found ==> after.Keys == {};
    }
  }

  /** An eviction is over when enough has gone or nothing is left. */
  lemma EvictionEnds(before: Items, after: Items, prefixes: set<string>, week: int, count: int, left: nat, round: nat)
    requires 0 <= left <= count && EvictedSoFar(before, after, count - left)
    requires InRound(before, after, prefixes, week, round, if left > 0 then prefixes else {})
    requires left == 0 || after == map[]
    ensures Evicted(before, after, prefixes, week, count)
  {
    ItemsLeft(before, after, count - left);
    if round > MAX_CAREFUL_ROUNDS {
      forall p | p in prefixes
        ensures GaveUp(before, prefixes, p, week, Gone(before, after), MAX_CAREFUL_ROUNDS)
      {
        assert GaveUp(before, prefixes, p, week, Gone(before, after), Shares(round, left > 0));
      }
    }
  }

  lemma RoundMade(before: Items, items: Items, after: Items, prefixes: set<string>, week: int, round: nat, count: int,
      left: int, found: bool, nowLeft: int)
    requires left > 0 && Between(before, items, prefixes, week, round, count, left)
    requires RoundOver(before, after, prefixes, count - left, week, round + 1, left, found, nowLeft)
    ensures nowLeft == 0 || !found ==> Evicted(before, after, prefixes, week, count)
    ensures nowLeft > 0 && found ==> Between(before, after, prefixes, week, round + 1, count, nowLeft)
    ensures nowLeft > 0 && found ==> |after| < |items| || (|after| == |items| && round < MAX_CAREFUL_ROUNDS)
  {
    assert count - left + (left - nowLeft) == count - nowLeft;
    ItemsLeft(before, items, count - left);
    ItemsLeft(before, after, count - nowLeft);
    if nowLeft == 0 || !found {
      EvictionEnds(before, after, prefixes, week, count, nowLeft, round + 1);
    }
  }

  // ---------- expiry ----------

  function InShard(items: Items, prefixes: set<string>, p: string): set<string>
  {
    set hash | hash in items && ShardOf(prefixes, hash) == p
  }

  function ExpiredIn(items: Items, prefixes: set<string>, p: string, now: int): set<string>
  {
    set hash | hash in items && ShardOf(prefixes, hash) == p && items[hash].expiresAt < now
  }

  /** Only expired items of the shard have gone, and all of them if the shard has no more items than were looked at. */
  ghost predicate Purged(before: Items, after: Items, prefixes: set<string>, p: string, count: int, now: int, found: int)
  {
    && EvictedSoFar(before, after, found) && found <= (if count > 0 then count else 0)
    && Gone(before, after) <= ExpiredIn(before, prefixes, p, now)
    && (|InShard(before, prefixes, p)| <= count ==> Gone(before, after) == ExpiredIn(before, prefixes, p, now))
  }

  ghost predicate Purging(before: Items, after: Items, prefixes: set<string>, p: string, count: int, now: int,
      todo: set<string>, left: int, found: int)
  {
    && EvictedSoFar(before, after, found) && todo <= InShard(before, prefixes, p) && todo !! Gone(before, after)
    && Gone(before, after) == ExpiredIn(before, prefixes, p, now) - todo
    && left == count - |InShard(before, prefixes, p) - todo| && found <= count - left && (left >= 0 || left == count)
  }

  lemma PurgeOneMore(before: Items, items: Items, prefixes: set<string>, p: string, count: int, now: int,
      todo: set<string>, left: int, found: int, hash: string)
    requires Purging(before, items, prefixes, p, count, now, todo, left, found) && hash in todo && left > 0
    ensures hash in items && ShardOf(prefixes, hash) == p
    ensures items[hash].IsExpired(now) ==>
              Purging(before, items - {hash}, prefixes, p, count, now, todo - {hash}, left - 1, found + 1)
    ensures !items[hash].IsExpired(now) ==> Purging(before, items, prefixes, p, count, now, todo - {hash}, left - 1, found)
  {
    assert hash in before && hash !in Gone(before, items);
    EvictOneMore(before, items, found, hash);
    OneLess(InShard(before, prefixes, p), todo, hash);
    OneLess(ExpiredIn(before, prefixes, p, now), todo, hash);
  }

  lemma PurgeEnds(before: Items, after: Items, prefixes: set<string>, p: string, count: int, now: int,
      todo: set<string>, left: int, found: int)
    requires Purging(before, after, prefixes, p, count, now, todo, left, found) && (todo == {} || left <= 0)
    ensures Purged(before, after, prefixes, p, count, now, found)
  {
    if todo == {} {
      assert ExpiredIn(before, prefixes, p, now) - todo == ExpiredIn(before, prefixes, p, now);
    } else {
      MoreThanVisited(InShard(before, prefixes, p), todo);
    }
  }

  lemma MoreThanVisited(all: set<string>, todo: set<string>)
    requires todo <= all && todo != {}
    ensures |all - todo| < |all|
  {
    assert all == (all - todo) + todo;
  }

  /** The prefixes in the order of a cycle that begins at `start`. */
  function Turned(prefixes: seq<string>, start: nat): (turned: seq<string>)
    requires start <= |prefixes|
    ensures |turned| == |prefixes| && forall p :: p in prefixes ==> p in turned
    ensures forall j :: 0 <= j < |prefixes| ==> turned[j] == prefixes[TurnAfter(start, j, |prefixes|)]
  {
    assert prefixes == prefixes[..start] + prefixes[start..];
    prefixes[start..] + prefixes[..start]
  }

  /** Whose turn it is after k purges. */
  function TurnAfter(start: nat, k: nat, n: nat): int
  {
    if start + k < n then start + k else start + k - n
  }

  function Unexpired(items: Items, now: int): Items
  {
    map hash | hash in items && items[hash].expiresAt >= now :: items[hash]
  }

  /** The items after each of the first k purges of a cycle. */
  ghost predicate Cycled(prefixes: seq<string>, known: set<string>, start: nat, now: int, states: seq<Items>, k: nat,
      before: Items, items: Items)
  {
    && start < |prefixes| && k <= |prefixes| && |states| == k + 1 && states[0] == before && states[k] == items
    && forall j :: 0 <= j < k ==> IsPurge(states[j], states[j + 1], known, prefixes[TurnAfter(start, j, |prefixes|)], now)
  }

  ghost predicate IsPurge(before: Items, after: Items, known: set<string>, p: string, now: int)
  {
    after == before - ExpiredIn(before, known, p, now)
  }

  lemma CycleBegins(prefixes: seq<string>, known: set<string>, start: nat, now: int, items: Items)
    requires start < |prefixes|
    ensures Cycled(prefixes, known, start, now, [items], 0, items, items)
  {
  }

  lemma CycleOn(prefixes: seq<string>, known: set<string>, start: nat, now: int, states: seq<Items>, k: nat,
      before: Items, was: Items, items: Items)
    requires Cycled(prefixes, known, start, now, states, k, before, was) && k < |prefixes|
    requires IsPurge(was, items, known, prefixes[TurnAfter(start, k, |prefixes|)], now)
    ensures Cycled(prefixes, known, start, now, states + [items], k + 1, before, items)
  {
    var more := states + [items];
    assert forall j :: 0 <= j <= k ==> more[j] == states[j];
  }

  lemma CycleEnds(prefixes: seq<string>, known: set<string>, start: nat, now: int, states: seq<Items>,
      before: Items, items: Items)
    requires Cycled(prefixes, known, start, now, states, |prefixes|, before, items)
    requires forall hash :: hash in before ==> ShardOf(known, hash) in prefixes
    ensures items == Unexpired(before, now)
  {
    OneCyclePurgesAll(Turned(prefixes, start), known, states, now);
  }

  lemma ShardIsSmall(items: Items, prefixes: set<string>, p: string)
    ensures |InShard(items, prefixes, p)| <= |items|
  {
    SubsetSize(InShard(items, prefixes, p), items.Keys);
    assert |items| == |items.Keys|;
  }

  /** When every shard in turn is purged completely, no expired item is left. */
  lemma {:induction false} OneCyclePurgesAll(prefixes: seq<string>, known: set<string>, states: seq<Items>, now: int)
    requires |states| == |prefixes| + 1
    requires forall k :: 0 <= k < |prefixes| ==> states[k + 1] == states[k] - ExpiredIn(states[k], known, prefixes[k], now)
    requires forall hash :: hash in states[0] ==> ShardOf(known, hash) in prefixes
    ensures forall hash :: hash in states[|prefixes|] <==> hash in states[0] && states[0][hash].expiresAt >= now
    ensures forall hash :: hash in states[|prefixes|] ==> states[|prefixes|][hash] == states[0][hash]
  {
    for k := 0 to |prefixes|
      invariant states[k].Keys <= states[0].Keys
      invariant forall hash :: hash in states[k] ==> states[k][hash] == states[0][hash]
      invariant forall hash :: hash in states[0] && !states[0][hash].IsExpired(now) ==> hash in states[k]
      invariant forall hash :: hash in states[k] && states[0][hash].IsExpired(now) ==> ShardOf(known, hash) !in prefixes[..k]
    {
      assert prefixes[..k + 1] == prefixes[..k] + [prefixes[k]];
    }
    assert prefixes[..|prefixes|] == prefixes;
  }

  // ---------- the list ----------

  /** The numerals from 100 up to n. */
  function Numerals(n: nat): set<string>
  {
    set k | 100 <= k < n :: Format(k)
  }

  lemma MoreNumerals(n: nat)
    requires n >= 100
    ensures Numerals(n + 1) == Numerals(n) + {Format(n)}
  {
  }

  lemma {:induction false} FirstDigits(n: nat) returns (m: nat)
    requires n >= 100
    ensures 100 <= m < 1000 && |Format(n)| >= 3 && Format(n)[..3] == Format(m)
  {
    if n < 1000 {
      m := n;
      assert |Format(n / 100)| == 1 && |Format(n / 10)| == 2 && |Format(n)| == 3;
      assert Format(n)[..3] == Format(n);
    } else {
      m := FirstDigits(n / 10);
      assert Format(n)[..3] == Format(n / 10)[..3];
    }
  }

  /** With the shards of Init, a hash of three or more digits goes to the shard of its first three digits, and any other
      one to the shard 000. */
  lemma ShardOfNumber(n: nat)
    ensures n >= 100 ==> |Format(n)| >= 3
    ensures ShardOf({"000"} + Numerals(1000), Format(n)) == if n >= 100 then Format(n)[..3] else "000"
  {
    if n >= 100 {
      var m := FirstDigits(n);
      assert Format(m) in Numerals(1000);
      assert |Format(n)| == 3 ==> Format(n)[..3] == Format(n);
    } else {
      assert |Format(n)| <= 2;
      if Format(n) in Numerals(1000) {
        var k :| 100 <= k < 1000 && Format(k) == Format(n);
        ParseFormat(k);
        ParseFormat(n);
      }
    }
  }

  class MemoryList {
    var count: int
    var itemMaps: Shards
    var prefixes: seq<string>
    var purgeIndex: nat

    /** The counter of the storage, which the list's two callbacks keep up to date. */
    var usedSize: int

    ghost var items: Items
    ghost const known: set<string>

    /** What a cleaning that was disturbed has taken from the counters for good; see ListReset. */
    ghost var lostCount: int
    ghost var lostBytes: int

    /** The shards hold the items, and there is a shard for every hash. */
    ghost predicate InShards()
      reads this`itemMaps, this`items
    {
      Holds(Router(known), itemMaps, items) && itemMaps.Keys == known && DEFAULT_PREFIX in known
    }

    /** The counters, up to what was lost. */
    ghost predicate Counted()
      reads this`count, this`usedSize, this`items, this`lostCount, this`lostBytes
    {
      count == |items| - lostCount && usedSize == SizeOf(items) - lostBytes
    }

    /** The counters are exact. No operation but a cleaning changes that. */
    ghost predicate Exact()
      reads this`lostCount, this`lostBytes
    {
      lostCount == 0 && lostBytes == 0
    }

    ghost predicate Valid()
      reads this`count, this`usedSize, this`items, this`itemMaps, this`prefixes, this`lostCount, this`lostBytes
    {
      InShards() && Counted() && |prefixes| > 0 && (forall p :: p in prefixes <==> p in known)
    }

    /** NewMemoryList and Init. */
    constructor ()
      ensures Valid() && Exact() && items == map[] && known == {DEFAULT_PREFIX} + Numerals(1000)
    {
      lostCount, lostBytes := 0, 0;
      known := {DEFAULT_PREFIX} + Numerals(1000);
      count, usedSize, purgeIndex, items := 0, 0, 0, map[];
      itemMaps, prefixes := map[], [DEFAULT_PREFIX];
      new;
      for n := 100 to 1000
        invariant count == usedSize == 0 && items == map[] && |prefixes| > 0 && Exact()
        invariant forall p :: p in prefixes <==> p == DEFAULT_PREFIX || p in Numerals(n)
      {
        var longer := prefixes + [Format(n)];
        assert forall p :: p in longer <==> p in prefixes || p == Format(n);
        MoreNumerals(n);
        prefixes := longer;
      }
      itemMaps := map p | p in prefixes :: map[];
    }

    /** Adding replaces an item of the same hash and keeps both counters exact. A shard always exists by then. */
    method Add(hash: string, item: Item)
      requires Valid()
      modifies this`count, this`itemMaps, this`usedSize, this`items
      ensures Valid() && items == old(items)[hash := item]
      ensures usedSize == old(usedSize) + BytesOf(items, hash) - BytesOf(old(items), hash)
      ensures count == old(count) + if hash in old(items) then 0 else 1
    {
      var prefix := ShardOf(itemMaps.Keys, hash);
      Lookup(Router(known), itemMaps, items, hash);
      CountAdded(hash, item, if hash in itemMaps[prefix] then Some(itemMaps[prefix][hash]) else None);
      PutIntoShard(prefix, hash, item);
    }

    /** The callbacks and the counter for an item about to be added. */
    method CountAdded(hash: string, item: Item, oldItem: Option<Item>)
      requires Counted() && oldItem == if hash in items then Some(items[hash]) else None
      modifies this`count, this`usedSize
      ensures count == |items[hash := item]| - lostCount && usedSize == SizeOf(items[hash := item]) - lostBytes
      ensures usedSize == old(usedSize) + BytesOf(items[hash := item], hash) - BytesOf(items, hash)
      ensures count == old(count) + if hash in items then 0 else 1
    {
      SizeWith(items, hash, item);
      CountWith(items, hash, item);
      if oldItem.Some? {
        usedSize := usedSize - oldItem.value.TotalSize();
      } else {
        count := count + 1;
      }
      usedSize := usedSize + item.TotalSize();
    }

    method PutIntoShard(prefix: string, hash: string, item: Item)
      requires InShards() && prefix == ShardOf(known, hash)
      modifies this`itemMaps, this`items
      ensures InShards() && items == old(items)[hash := item]
    {
      HoldsWith(Router(known), itemMaps, items, hash, item);
      itemMaps := itemMaps[prefix := itemMaps[prefix][hash := item]];
      items := items[hash := item];
    }

    /** onRemove, the counter, and the deletion from the shard. */
    method Drop(p: string, hash: string)
      requires Valid() && p in itemMaps && hash in itemMaps[p]
      modifies this`count, this`itemMaps, this`usedSize, this`items
      ensures Valid() && hash in old(items) && items == old(items) - {hash}
      ensures itemMaps == old(itemMaps)[p := old(itemMaps)[p] - {hash}]
    {
      HoldsWithout(Router(known), itemMaps, items, p, hash);
      CountRemoved(hash, itemMaps[p][hash]);
      DropFromShard(p, hash);
    }

    method CountRemoved(hash: string, item: Item)
      requires Counted() && hash in items && items[hash] == item
      modifies this`count, this`usedSize
      ensures count == |items - {hash}| - lostCount && usedSize == SizeOf(items - {hash}) - lostBytes
    {
      SizeWithout(items, hash);
      usedSize := usedSize - item.TotalSize();
      count := count - 1;
    }

    method DropFromShard(p: string, hash: string)
      requires InShards() && p in itemMaps && hash in itemMaps[p]
      modifies this`itemMaps, this`items
      ensures InShards() && items == old(items) - {hash}
      ensures itemMaps == old(itemMaps)[p := old(itemMaps)[p] - {hash}]
    {
      HoldsWithout(Router(known), itemMaps, items, p, hash);
      itemMaps := itemMaps[p := itemMaps[p] - {hash}];
      items := items - {hash};
    }

    method Remove(hash: string)
      requires Valid()
      modifies this`count, this`itemMaps, this`usedSize, this`items
      ensures Valid() && items == old(items) - {hash}
      ensures usedSize == old(usedSize) - BytesOf(old(items), hash)
    {
      Lookup(Router(known), itemMaps, items, hash);
      var prefix := ShardOf(itemMaps.Keys, hash);
      if hash in itemMaps[prefix] {
        Drop(prefix, hash);
      } else {
        assert items - {hash} == items;
      }
      UsedWithout(old(items), hash, old(usedSize), usedSize, lostBytes);
    }

    method Exist(hash: string, now: int) returns (yes: bool)
      requires Valid()
      ensures yes <==> hash in items && items[hash].expiresAt >= now
    {
      Lookup(Router(known), itemMaps, items, hash);
      var prefix := ShardOf(itemMaps.Keys, hash);
      yes := hash in itemMaps[prefix] && !itemMaps[prefix][hash].IsExpired(now);
    }

    /** A hit marks the item as recently used and changes nothing else. */
    method IncreaseHit(hash: string, week: int)
      requires Valid()
      modifies this`itemMaps, this`items
      ensures Valid() && items == if hash in old(items) then old(items)[hash := old(items)[hash].(week := week)] else old(items)
    {
      Lookup(Router(known), itemMaps, items, hash);
      var prefix := ShardOf(itemMaps.Keys, hash);
      if hash in itemMaps[prefix] {
        var item := itemMaps[prefix][hash].(week := week);
        HitKeepsSize(items, hash, week);
        PutIntoShard(prefix, hash, item);
      }
    }

    // ---------- emptying ----------

    /** First part of Reset, under the lock. The counters still stand for what was there. */
    method ResetMaps()
      requires Valid()
      modifies this`itemMaps, this`items, this`lostCount, this`lostBytes
      ensures Valid() && items == map[] && lostCount == -count && lostBytes == -usedSize
    {
      ClearShards();
      lostCount, lostBytes := -count, -usedSize;
    }

    method ClearShards()
      requires InShards()
      modifies this`itemMaps, this`items
      ensures InShards() && items == map[] && |items| == 0 && SizeOf(items) == 0
    {
      NothingHasNoSize();
      HoldsNothing(Router(known), itemMaps);
      itemMaps := Emptied(itemMaps);
      items := map[];
    }

    /** Second part, after the lock: what is in the list by then is no longer counted. */
    method ResetCount()
      requires Valid()
      modifies this`count, this`lostCount
      ensures Valid() && count == 0 && lostCount == |items|
    {
      count := 0;
      lostCount := |items|;
    }

    method Reset()
      requires Valid()
      modifies this`itemMaps, this`items, this`count, this`lostCount, this`lostBytes
      ensures Valid() && items == map[] && count == 0 && lostCount == 0
    {
      ResetMaps();
      ResetCount();
    }

    /** Last part of the storage's CleanAll, which holds no lock of the list: likewise for the bytes. */
    method ResetUsed()
      requires Valid()
      modifies this`usedSize, this`lostBytes
      ensures Valid() && usedSize == 0 && lostBytes == SizeOf(items)
    {
      usedSize := 0;
      lostBytes := SizeOf(items);
    }

    /** CleanAll as a whole, when no other operation comes in between: the counters are exact afterwards, even if an
        earlier cleaning was disturbed. */
    method CleanAll()
      requires Valid()
      modifies this`itemMaps, this`items, this`count, this`usedSize, this`lostCount, this`lostBytes
      ensures Valid() && Exact() && items == map[]
    {
      NothingHasNoSize();
      Reset();
      ResetUsed();
    }

    // ---------- expiry ----------

    /** Purges the next shard in turn of expired items, looking at no more than `count`. */
    method Purge(count: int, now: int) returns (countFound: int)
      requires Valid()
      modifies this`count, this`itemMaps, this`usedSize, this`items, this`purgeIndex
      ensures Valid()
      ensures purgeIndex == (if old(purgeIndex) < |prefixes| then old(purgeIndex) else 0) + 1 <= |prefixes|
      ensures Purged(old(items), items, known, prefixes[purgeIndex - 1], count, now, countFound)
    {
      if purgeIndex >= |prefixes| {
        purgeIndex := 0;
      }
      var prefix := prefixes[purgeIndex];
      purgeIndex := purgeIndex + 1;
      countFound := PurgeShard(prefix, count, now);
    }

    /** The shard whose turn it is. */
    function Turn(): nat
      reads this`purgeIndex, this`prefixes
    {
      if purgeIndex < |prefixes| then purgeIndex else 0
    }

    /** One cycle over all shards, from wherever the turn is, with room for every item: exactly the unexpired ones stay. */
    method PurgeCycle(count: int, now: int)
      requires Valid() && |items| <= count
      modifies this`count, this`itemMaps, this`usedSize, this`items, this`purgeIndex
      ensures Valid() && items == Unexpired(old(items), now)
    {
      ghost var before, ps, n := items, prefixes, |prefixes|;
      ghost var start := Turn();
      ghost var states := [items];
      AllRouted();
      CycleBegins(ps, known, start, now, items);
      for k := 0 to |prefixes|
        invariant Valid() && |items| <= count
        invariant Turn() == TurnAfter(start, k, n)
        invariant Cycled(ps, known, start, now, states, k, before, items)
      {
        ghost var was := items;
        PurgeNext(count, now);
        CycleOn(ps, known, start, now, states, k, before, was, items);
        states := states + [items];
      }
      CycleEnds(ps, known, start, now, states, before, items);
    }

    method PurgeNext(count: int, now: int)
      requires Valid() && |items| <= count
      modifies this`count, this`itemMaps, this`usedSize, this`items, this`purgeIndex
      ensures Valid() && |items| <= count
      ensures Turn() == if old(Turn()) + 1 < |prefixes| then old(Turn()) + 1 else 0
      ensures IsPurge(old(items), items, known, prefixes[old(Turn())], now)
    {
      ghost var was := items;
      var found := Purge(count, now);
      ShardIsSmall(was, known, prefixes[purgeIndex - 1]);
      ItemsLeft(was, items, found);
    }

    method PurgeShard(p: string, count: int, now: int) returns (countFound: int)
      requires Valid() && p in itemMaps
      modifies this`count, this`itemMaps, this`usedSize, this`items
      ensures Valid() && Purged(old(items), items, known, p, count, now, countFound)
    {
      countFound := 0;
      var left, todo := count, itemMaps[p].Keys;
      PurgeBegins(p, count, now);
      while todo != {} && left > 0
        invariant Valid() && Purging(old(items), items, known, p, count, now, todo, left, countFound)
        decreases todo
      {
        var hash :| hash in todo;
        PurgeOneMore(old(items), items, known, p, count, now, todo, left, countFound, hash);
        ShardItems(p);
        if itemMaps[p][hash].IsExpired(now) {
          Drop(p, hash);
          countFound := countFound + 1;
        }
        todo, left := todo - {hash}, left - 1;
      }
      PurgeEnds(old(items), items, known, p, count, now, todo, left, countFound);
    }

    lemma AllRouted()
      requires Valid()
      ensures forall hash :: hash in items ==> ShardOf(known, hash) in prefixes
    {
    }

    lemma PurgeBegins(p: string, count: int, now: int)
      requires InShards() && p in itemMaps
      ensures Purging(items, items, known, p, count, now, itemMaps[p].Keys, count, 0)
    {
      ShardItems(p);
      assert Gone(items, items) == {} && items - {} == items;
      assert InShard(items, known, p) == itemMaps[p].Keys;
      assert InShard(items, known, p) - itemMaps[p].Keys == {};
    }

    // ---------- eviction ----------

    /** One shard in one round: at most one item goes, in careful rounds a stale one if there is any. */
    method VisitShard(p: string, week: int, careful: bool) returns (found: bool, evicted: Option<string>)
      requires Valid() && p in itemMaps
      modifies this`count, this`itemMaps, this`usedSize, this`items
      ensures Valid()
      ensures !found ==> evicted.None? && forall hash :: hash in items ==> ShardOf(known, hash) != p
      ensures found && !careful ==> evicted.Some?
      ensures match evicted
              case None => items == old(items) && (careful ==> Stale(items, known, p, week) == {})
              case Some(hash) =>
                && hash in old(items) && items == old(items) - {hash} && ShardOf(known, hash) == p
                && (careful ==> hash in Stale(old(items), known, p, week))
    {
      found, evicted := false, None;
      ShardItems(p);
      var todo := itemMaps[p].Keys;
      while todo != {}
        invariant Valid() && items == old(items) && todo <= itemMaps[p].Keys && itemMaps == old(itemMaps)
        invariant forall hash :: hash in itemMaps[p].Keys - todo ==> careful && found && IsRecent(items[hash], week)
        invariant !found ==> todo == itemMaps[p].Keys
        invariant found ==> careful
        decreases todo
      {
        var hash :| hash in todo;
        found := true;
        if IsRecent(itemMaps[p][hash], week) && careful {
          todo := todo - {hash};
        } else {
          Drop(p, hash);
          return found, Some(hash);
        }
      }
    }

    lemma ShardItems(p: string)
      requires InShards() && p in itemMaps
      ensures forall hash :: hash in itemMaps[p] <==> hash in items && ShardOf(known, hash) == p
      ensures forall hash :: hash in itemMaps[p] ==> itemMaps[p][hash] == items[hash]
    {
    }

    /** One round over all shards, in any order; stops when `count` more items have gone. */
    method EvictRound(ghost before: Items, ghost evictions: int, week: int, round: nat, count: int)
      returns (found: bool, left: int)
      requires Valid() && count > 0 && round > 0
      requires EvictedSoFar(before, items, evictions) && InRound(before, items, known, week, round, {})
      modifies this`count, this`itemMaps, this`usedSize, this`items
      ensures Valid() && RoundOver(before, items, known, evictions, week, round, count, found, left)
    {
      found, left := false, count;
      var todo := itemMaps.Keys;
      FirstVisit(before, evictions, week, round, count);
      while todo != {}
        invariant Valid() && left > 0
        invariant Visiting(before, items, known, evictions, week, round, count, todo, found, left)
        decreases todo
      {
        var p :| p in todo;
        found, left := EvictFrom(before, evictions, week, round, count, todo, p, found, left);
        todo := todo - {p};
        if left <= 0 {
          break;
        }
      }
      LastVisit(before, items, known, evictions, week, round, count, todo, found, left);
    }

    lemma FirstVisit(before: Items, evictions: int, week: int, round: nat, count: int)
      requires InShards() && count > 0 && round > 0
      requires EvictedSoFar(before, items, evictions) && InRound(before, items, known, week, round, {})
      ensures Visiting(before, items, known, evictions, week, round, count, known, false, count)
    {
      assert known - known == {};
    }

    method EvictFrom(ghost before: Items, ghost evictions: int, week: int, round: nat, ghost count: int,
        ghost todo: set<string>, p: string, found: bool, left: int)
      returns (nowFound: bool, nowLeft: int)
      requires Valid() && p in todo && p in itemMaps && left > 0
      requires Visiting(before, items, known, evictions, week, round, count, todo, found, left)
      modifies this`count, this`itemMaps, this`usedSize, this`items
      ensures Valid() && Visiting(before, items, known, evictions, week, round, count, todo - {p}, nowFound, nowLeft)
    {
      var seen, evicted := VisitShard(p, week, round <= MAX_CAREFUL_ROUNDS);
      VisitMade(before, old(items), items, known, evictions, week, round, count, todo, p, found, left, seen, evicted);
      nowFound := found || seen;
      nowLeft := if evicted.Some? then left - 1 else left;
    }

    method PurgeLFU(count: int, week: int)
      requires Valid()
      modifies this`count, this`itemMaps, this`usedSize, this`items
      ensures Valid()
      ensures if count <= 0 then items == old(items) else Evicted(old(items), items, known, week, count)
      ensures count > 0 ==> |items| == if count <= |old(items)| then |old(items)| - count else 0
      ensures count > 0 && count <= CarefulCapacity(old(items), known, week) ==>
        forall hash :: hash in old(items) && week - old(items)[hash].week <= 1 ==> hash in items
    {
      if count <= 0 {
        return;
      }
      EvictLoop(count, week);
      ItemsLeft(old(items), items, Min(count, |old(items)|));
      if count <= CarefulCapacity(old(items), known, week) {
        RecentItemsAreKept(old(items), items, known, week, count);
      }
    }

    method EvictLoop(count: int, week: int)
      requires Valid() && count > 0
      modifies this`count, this`itemMaps, this`usedSize, this`items
      ensures Valid() && Evicted(old(items), items, known, week, count)
    {
      ghost var before := items;
      NothingGone(before, known, week, count);
      var left, round := count, 0;
      var found := true;
      while found
        invariant Valid()
        invariant if found then left > 0 && Between(before, items, known, week, round, count, left)
                  else Evicted(before, items, known, week, count)
        decreases found, |items|, MAX_CAREFUL_ROUNDS + 1 - round
      {
        found, left := NextRound(before, week, round, count, left);
        round := round + 1;
        if left == 0 {
          break;
        }
      }
    }

    method NextRound(ghost before: Items, week: int, round: nat, ghost count: int, left: int)
      returns (found: bool, nowLeft: int)
      requires Valid() && left > 0 && Between(before, items, known, week, round, count, left)
      modifies this`count, this`itemMaps, this`usedSize, this`items
      ensures Valid() && 0 <= nowLeft
      ensures nowLeft == 0 || !found ==> Evicted(before, items, known, week, count)
      ensures nowLeft > 0 && found ==>
        && Between(before, items, known, week, round + 1, count, nowLeft)
        && (|items| < |old(items)| || (|items| == |old(items)| && round < MAX_CAREFUL_ROUNDS))
    {
      ghost var was := items;
      RoundBegins(before, was, known, week, round, count, left);
      found, nowLeft := EvictRound(before, count - left, week, round + 1, left);
      RoundMade(before, was, items, known, week, round, count, left, found, nowLeft);
    }
  }
}
