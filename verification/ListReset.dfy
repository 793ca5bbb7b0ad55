/** Cleaning the memory cache beside other operations: the list's map is emptied under its lock, but its counter and the
    storage's byte total are stored as 0 later, without it (internal/caches/storage_memory.go, list_memory.go). */
module ListReset {
  import M = MemoryList

  datatype Cleaner = Idle | Cleared | CountStored

  /** An operation that holds the list's lock still owes additions to the counter and to the byte total. */
  datatype State = State(
    items: M.Items,
    count: int,
    used: int,
    cleaner: Cleaner,
    busy: bool,
    dueCount: int,
    dueUsed: seq<int>,
    lostCount: int,  // history: what the last stores have taken from the counters
    lostBytes: int
  )

  const INITIAL := State(map[], 0, 0, Idle, false, 0, [], 0, 0)

  /** Adding and removing under the list's lock, an addition at a time; the parts of CleanAll, of which there is only one
      at a time, because it holds the storage's lock. Evictions are removals. */
  datatype Action =
    | BeginAdd(hash: string, item: M.Item)
    | BeginRemove(hash: string)
    | AddCount
    | AddUsed
    | Finish
    | Clear
    | StoreCount
    | StoreUsed

  predicate Enabled(s: State, a: Action)
  {
    match a
    case BeginAdd(_, _) => !s.busy
    case BeginRemove(_) => !s.busy
    case AddCount => s.busy && s.dueCount != 0
    case AddUsed => s.busy && s.dueUsed != []
    case Finish => s.busy && s.dueCount == 0 && s.dueUsed == []
    case Clear => !s.busy && s.cleaner.Idle?
    case StoreCount => s.cleaner.Cleared?
    case StoreUsed => s.cleaner.CountStored?
  }

  ghost function Step(s: State, a: Action): State
    requires Enabled(s, a)
  {
    match a
    case BeginAdd(hash, item) =>
      var isOld := hash in s.items;
      s.(items := s.items[hash := item], busy := true, dueCount := if isOld then 0 else 1,
         dueUsed := (if isOld then [0 - s.items[hash].TotalSize()] else []) + [item.TotalSize()])
    case BeginRemove(hash) =>
      if hash !in s.items then s.(busy := true, dueCount := 0, dueUsed := [])
      else s.(items := s.items - {hash}, busy := true, dueCount := -1, dueUsed := [0 - s.items[hash].TotalSize()])
    case AddCount => s.(count := s.count + s.dueCount, dueCount := 0)
    case AddUsed => s.(used := s.used + s.dueUsed[0], dueUsed := s.dueUsed[1..])
    case Finish => s.(busy := false)
    case Clear => s.(items := map[], cleaner := Cleared, lostCount := -s.count, lostBytes := -s.used)
    case StoreCount => s.(count := 0, cleaner := CountStored, lostCount := |s.items| - s.dueCount)
    case StoreUsed => s.(used := 0, cleaner := Idle, lostBytes := M.SizeOf(s.items) - Total(s.dueUsed))
  }

  function Total(due: seq<int>): int
  {
    if due == [] then 0 else due[0] + Total(due[1..])
  }

  // ---------- how far the counters are off ----------

  ghost predicate Drift(s: State)
  {
    && s.count + s.dueCount == |s.items| - s.lostCount
    && s.used + Total(s.dueUsed) == M.SizeOf(s.items) - s.lostBytes
  }

  ghost predicate Inv(s: State)
  {
    Drift(s) && (!s.busy ==> s.dueCount == 0 && s.dueUsed == [])
  }

  lemma TotalOf(a: int, b: int)
    ensures Total([a]) == a && Total([a] + [b]) == a + b && [] + [b] == [b] && Total([b]) == b
  {
    assert [a] + [b] == [a, b] && [a, b][1..] == [b];
    assert Total([a, b]) == a + Total([b]);
  }

  lemma BeginAddKeepsInv(s: State, hash: string, item: M.Item)
    requires Inv(s) && !s.busy
    ensures Inv(Step(s, BeginAdd(hash, item)))
  {
    M.SizeWith(s.items, hash, item);
    M.CountWith(s.items, hash, item);
    TotalOf(if hash in s.items then 0 - s.items[hash].TotalSize() else 0, item.TotalSize());
  }

  lemma BeginRemoveKeepsInv(s: State, hash: string)
    requires Inv(s) && !s.busy
    ensures Inv(Step(s, BeginRemove(hash)))
  {
    if hash in s.items {
      M.SizeWithout(s.items, hash);
      TotalOf(0 - s.items[hash].TotalSize(), 0);
    }
  }

  /** Every step keeps what the counters are off by, except that the parts of a cleaning decide it anew. */
  lemma StepKeepsInv(s: State, a: Action)
    requires Inv(s) && Enabled(s, a)
    ensures Inv(Step(s, a))
    ensures !a.Clear? && !a.StoreCount? ==> Step(s, a).lostCount == s.lostCount
    ensures !a.Clear? && !a.StoreUsed? ==> Step(s, a).lostBytes == s.lostBytes
  {
    match a
    case BeginAdd(hash, item) => BeginAddKeepsInv(s, hash, item);
    case BeginRemove(hash) => BeginRemoveKeepsInv(s, hash);
    case Clear => M.NothingHasNoSize();
    case _ =>
  }

  /** The states that the actions lead through. */
  ghost predicate Leads(states: seq<State>, actions: seq<Action>)
  {
    && |states| == |actions| + 1
    && forall k :: 0 <= k < |actions| ==> Enabled(states[k], actions[k]) && states[k + 1] == Step(states[k], actions[k])
  }

  ghost predicate IsRun(states: seq<State>, actions: seq<Action>)
  {
    Leads(states, actions) && states[0] == INITIAL
  }

  /** In every interleaving, whenever no operation is under way, the counters are off by exactly what the last stores have
      taken: they are exact if and only if that is nothing. */
  lemma {:induction false} EveryRunDrifts(states: seq<State>, actions: seq<Action>)
    requires IsRun(states, actions)
    ensures forall k :: 0 <= k < |states| ==> Inv(states[k])
    ensures forall k :: 0 <= k < |states| && !states[k].busy ==>
      && states[k].count == |states[k].items| - states[k].lostCount
      && states[k].used == M.SizeOf(states[k].items) - states[k].lostBytes
  {
    M.NothingHasNoSize();
    for k := 0 to |actions|
      invariant forall j :: 0 <= j <= k ==> Inv(states[j])
    {
      StepKeepsInv(states[k], actions[k]);
    }
  }

  /** A store takes the items that are there and counted already; that lasts until the next cleaning, whatever is added and
      removed. */
  lemma {:induction false} CountIsLostForGood(states: seq<State>, actions: seq<Action>, i: nat, j: nat)
    requires IsRun(states, actions) && i < j < |states| && actions[i].StoreCount?
    requires forall k :: i < k < j ==> !actions[k].Clear? && !actions[k].StoreCount?
    ensures states[j].lostCount == |states[i].items| - states[i].dueCount
    ensures !states[j].busy ==> (states[j].count == |states[j].items| <==> |states[i].items| == states[i].dueCount)
  {
    EveryRunDrifts(states, actions);
    for k := i + 1 to j
      invariant states[k].lostCount == |states[i].items| - states[i].dueCount
    {
      StepKeepsInv(states[k], actions[k]);
    }
  }

  lemma {:induction false} BytesAreLostForGood(states: seq<State>, actions: seq<Action>, i: nat, j: nat)
    requires IsRun(states, actions) && i < j < |states| && actions[i].StoreUsed?
    requires forall k :: i < k < j ==> !actions[k].Clear? && !actions[k].StoreUsed?
    ensures states[j].lostBytes == M.SizeOf(states[i].items) - Total(states[i].dueUsed)
    ensures !states[j].busy ==>
      (states[j].used == M.SizeOf(states[j].items) <==> M.SizeOf(states[i].items) == Total(states[i].dueUsed))
  {
    EveryRunDrifts(states, actions);
    for k := i + 1 to j
      invariant states[k].lostBytes == M.SizeOf(states[i].items) - Total(states[i].dueUsed)
    {
      StepKeepsInv(states[k], actions[k]);
    }
  }

  // ---------- inputs ----------

  lemma LeadOn(states: seq<State>, actions: seq<Action>, a: Action) returns (more: seq<State>)
    requires Leads(states, actions) && Enabled(states[|actions|], a)
    ensures Leads(more, actions + [a]) && more == states + [Step(states[|actions|], a)]
  {
    more := states + [Step(states[|actions|], a)];
    var longer := actions + [a];
    assert forall k :: 0 <= k < |actions| ==> longer[k] == actions[k] && more[k] == states[k];
  }

  lemma LeadTwo(states: seq<State>, actions: seq<Action>, a: Action, b: Action) returns (more: seq<State>)
    requires Leads(states, actions) && Enabled(states[|actions|], a) && Enabled(Step(states[|actions|], a), b)
    ensures Leads(more, actions + [a, b])
    ensures more == states + [Step(states[|actions|], a), Step(Step(states[|actions|], a), b)]
  {
    var one := LeadOn(states, actions, a);
    more := LeadOn(one, actions + [a], b);
    assert actions + [a] + [b] == actions + [a, b];
  }

  /** All of an addition of a new item. */
  lemma LeadAdd(states: seq<State>, actions: seq<Action>, s: State, hash: string, item: M.Item) returns (more: seq<State>)
    requires Leads(states, actions) && s == states[|actions|] && !s.busy && hash !in s.items
    ensures Leads(more, actions + [BeginAdd(hash, item), AddCount, AddUsed, Finish]) && |more| == |states| + 4
    ensures states <= more && more[|states| + 3]
         == s.(items := s.items[hash := item], count := s.count + 1, used := s.used + item.TotalSize(), dueCount := 0, dueUsed := [])
  {
    var begun := Step(s, BeginAdd(hash, item));
    assert begun.dueUsed == [item.TotalSize()];
    var two := LeadTwo(states, actions, BeginAdd(hash, item), AddCount);
    more := LeadTwo(two, actions + [BeginAdd(hash, item), AddCount], AddUsed, Finish);
    assert actions + [BeginAdd(hash, item), AddCount] + [AddUsed, Finish]
        == actions + [BeginAdd(hash, item), AddCount, AddUsed, Finish];
  }

  /** All of a removal. */
  lemma LeadRemove(states: seq<State>, actions: seq<Action>, s: State, hash: string) returns (more: seq<State>)
    requires Leads(states, actions) && s == states[|actions|] && !s.busy && hash in s.items
    ensures Leads(more, actions + [BeginRemove(hash), AddCount, AddUsed, Finish]) && |more| == |states| + 4
    ensures states <= more && more[|states| + 3]
         == s.(items := s.items - {hash}, count := s.count - 1, used := s.used - s.items[hash].TotalSize(), dueCount := 0, dueUsed := [])
  {
    var two := LeadTwo(states, actions, BeginRemove(hash), AddCount);
    more := LeadTwo(two, actions + [BeginRemove(hash), AddCount], AddUsed, Finish);
    assert actions + [BeginRemove(hash), AddCount] + [AddUsed, Finish]
        == actions + [BeginRemove(hash), AddCount, AddUsed, Finish];
  }

  /** An item that is added while the list is being cleaned is counted nowhere afterwards, and once it is removed both
      counters are below zero. */
  lemma AddDuringCleaning(hash: string, item: M.Item) returns (states: seq<State>, actions: seq<Action>)
    ensures IsRun(states, actions) && |actions| == 11
    ensures var s := states[7]; !s.busy && s.cleaner.Idle? && s.items == map[hash := item] && s.count == s.used == 0
    ensures var s := states[11];
      !s.busy && s.cleaner.Idle? && s.items == map[] && s.count == -1 && s.used == 0 - item.TotalSize()
  {
    var cleared := Step(INITIAL, Clear);
    states := LeadOn([INITIAL], [], Clear);
    assert [] + [Clear] == [Clear];
    states := LeadAdd(states, [Clear], cleared, hash, item);
    actions := [Clear] + [BeginAdd(hash, item), AddCount, AddUsed, Finish];
    states := LeadTwo(states, actions, StoreCount, StoreUsed);
    actions := actions + [StoreCount, StoreUsed];
    states := LeadRemove(states, actions, states[7], hash);
    actions := actions + [BeginRemove(hash), AddCount, AddUsed, Finish];
    assert map[hash := item] - {hash} == map[];
  }

  /** A cleaning from its first part, in state `i`, to its last, in state `j`. */
  ghost predicate IsCleaning(actions: seq<Action>, i: nat, j: nat)
  {
    && i < j < |actions| && actions[i].Clear? && actions[j].StoreUsed?
    && forall k :: i < k < j ==> !actions[k].StoreUsed?
  }

  /** Beside a cleaning nothing is there to be lost, as long as nothing is added. */
  ghost predicate IsQuiet(s: State)
  {
    && s.items == map[] && s.dueCount == 0 && s.dueUsed == []
    && (s.cleaner.Cleared? || (s.cleaner.CountStored? && s.lostCount == 0))
  }

  lemma StepStaysQuiet(s: State, a: Action)
    requires IsQuiet(s) && Enabled(s, a) && !a.BeginAdd? && !a.StoreUsed?
    ensures IsQuiet(Step(s, a))
  {
  }

  /** A cleaning during which nothing is added makes both counters exact, whatever was lost before and whatever is removed
      meanwhile. */
  lemma {:induction false} QuietCleaningIsExact(states: seq<State>, actions: seq<Action>, i: nat, j: nat)
    requires IsRun(states, actions) && IsCleaning(actions, i, j)
    requires forall k :: i < k < j ==> !actions[k].BeginAdd?
    ensures states[j + 1].items == map[] && states[j + 1].count == states[j + 1].used == 0
    ensures states[j + 1].lostCount == states[j + 1].lostBytes == 0
  {
    M.NothingHasNoSize();
    EveryRunDrifts(states, actions);
    for k := i + 1 to j
      invariant IsQuiet(states[k])
    {
      StepStaysQuiet(states[k], actions[k]);
    }
  }
}
