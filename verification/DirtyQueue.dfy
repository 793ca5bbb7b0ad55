/** Moving items from memory to disk: the queue of "size@key" entries and the total of bytes on their way
    (internal/caches/writer_memory.go, storage_memory.go). */
module DirtyQueue {
  import opened Decimal
  import opened Sums
  import opened Wrappers

  // ---------- the entries ----------

  function EntryOf(size: nat, key: string): string
  {
    Format(size) + "@" + key
  }

  /** strings.Cut at the first "@". */
  function Cut(entry: string): Option<(string, string)>
  {
    var i := IndexOf(entry, '@');
    if i < 0 then None else Some((entry[..i], entry[i + 1..]))
  }

  /** What flushing the entry takes off the total. */
  function SizeOf(entry: string): int
  {
    match Cut(entry)
    case Some((size, _)) => ParseInt(size)
    case None => 0
  }

  /** An entry splits back into its size and its key, whatever the key contains. */
  lemma EntryRoundTrip(size: nat, key: string)
    ensures Cut(EntryOf(size, key)) == Some((Format(size), key)) && SizeOf(EntryOf(size, key)) == size
  {
    var entry, i := EntryOf(size, key), |Format(size)|;
    assert entry[..i] == Format(size) && entry[i + 1..] == key;
    assert '@' !in Format(size);
    IndexOfIs(entry, '@', i);
    ParseIntFormat(size);
  }

  // ---------- the protocol ----------

  /** A flushing goroutine has received an entry, then looked the item up under the storage lock. */
  datatype Flush = Received(entry: string) | LookedUp(entry: string)

  /** The storage lock is held by a Close between sending and adding, or it is free. */
  datatype Lock = Free | Adding(entry: string)

  datatype State = State(c: seq<string>, flushing: map<nat, Flush>, lock: Lock, total: int)

  const INITIAL := State([], map[], Free, 0)

  datatype Action =
    | CloseSend(size: nat, key: string)
    | CloseAdd
    | FlushReceive(thread: nat)
    | FlushLookup(thread: nat)
    | FlushSubtract(thread: nat)

  predicate Enabled(s: State, a: Action)
  {
    match a
    case CloseSend(_, _) => s.lock.Free?
    case CloseAdd => s.lock.Adding?
    case FlushReceive(t) => t !in s.flushing && s.c != []
    case FlushLookup(t) => t in s.flushing && s.flushing[t].Received? && s.lock.Free?
    case FlushSubtract(t) => t in s.flushing && s.flushing[t].LookedUp?
  }

  function Step(s: State, a: Action, capacity: nat): State
    requires Enabled(s, a)
  {
    match a
    case CloseSend(size, key) =>
      if |s.c| < capacity then s.(c := s.c + [EntryOf(size, key)], lock := Adding(EntryOf(size, key))) else s
    case CloseAdd =>
      s.(total := s.total + SizeOf(s.lock.entry), lock := Free)
    case FlushReceive(t) =>
      s.(c := s.c[1..], flushing := s.flushing[t := Received(s.c[0])])
    case FlushLookup(t) =>
      s.(flushing := s.flushing[t := LookedUp(s.flushing[t].entry)])
    case FlushSubtract(t) =>
      s.(total := s.total - SizeOf(s.flushing[t].entry), flushing := s.flushing - {t})
  }

  // ---------- what is counted ----------

  ghost function Queued(c: seq<string>): int
  {
    if c == [] then 0 else SizeOf(c[0]) + Queued(c[1..])
  }

  function FlushSizes(flushing: map<nat, Flush>): map<nat, int>
  {
    map t | t in flushing :: SizeOf(flushing[t].entry)
  }

  ghost function InFlush(flushing: map<nat, Flush>): int { MapSum(FlushSizes(flushing)) }

  function Pending(lock: Lock): int { if lock.Adding? then SizeOf(lock.entry) else 0 }

  lemma {:induction false} QueuedMore(c: seq<string>, entry: string)
    ensures Queued(c + [entry]) == Queued(c) + SizeOf(entry)
  {
    if c != [] {
      assert (c + [entry])[1..] == c[1..] + [entry];
      QueuedMore(c[1..], entry);
    }
  }

  lemma InFlushWith(flushing: map<nat, Flush>, t: nat, f: Flush)
    ensures InFlush(flushing[t := f])
         == InFlush(flushing) + SizeOf(f.entry) - (if t in flushing then SizeOf(flushing[t].entry) else 0)
  {
    MapSumUpdate(FlushSizes(flushing), t, SizeOf(f.entry));
    assert FlushSizes(flushing[t := f]) == FlushSizes(flushing)[t := SizeOf(f.entry)];
  }

  lemma InFlushWithout(flushing: map<nat, Flush>, t: nat)
    requires t in flushing
    ensures InFlush(flushing - {t}) == InFlush(flushing) - SizeOf(flushing[t].entry)
  {
    MapSumRemove(FlushSizes(flushing), t);
    assert FlushSizes(flushing - {t}) == FlushSizes(flushing) - {t};
  }

  ghost predicate Balanced(s: State)
  {
    s.total + Pending(s.lock) == Queued(s.c) + InFlush(s.flushing)
  }

  /** An entry whose size is still to be added has not got past the lock. */
  ghost predicate BehindLock(s: State)
  {
    s.lock.Adding? ==> s.lock.entry in s.c || exists t :: t in s.flushing && s.flushing[t] == Received(s.lock.entry)
  }

  predicate NoNegative(s: State)
  {
    && (forall k :: 0 <= k < |s.c| ==> SizeOf(s.c[k]) >= 0)
    && (forall t :: t in s.flushing ==> SizeOf(s.flushing[t].entry) >= 0)
  }

  ghost predicate Inv(s: State) { Balanced(s) && BehindLock(s) && NoNegative(s) }

  lemma StepKeepsBalance(s: State, a: Action, capacity: nat)
    requires Enabled(s, a) && Balanced(s)
    ensures Balanced(Step(s, a, capacity))
  {
    match a
    case CloseSend(size, key) => QueuedMore(s.c, EntryOf(size, key));
    case CloseAdd =>
    case FlushReceive(t) => InFlushWith(s.flushing, t, Received(s.c[0]));
    case FlushLookup(t) => InFlushWith(s.flushing, t, LookedUp(s.flushing[t].entry));
    case FlushSubtract(t) => InFlushWithout(s.flushing, t);
  }

  lemma StepKeepsInv(s: State, a: Action, capacity: nat)
    requires Enabled(s, a) && Inv(s)
    ensures Inv(Step(s, a, capacity))
  {
    StepKeepsBalance(s, a, capacity);
    if a.CloseSend? {
      EntryRoundTrip(a.size, a.key);
    }
    if a.FlushReceive? && s.lock.Adding? && s.lock.entry in s.c {
      assert s.c == [s.c[0]] + s.c[1..];
      assert Step(s, a, capacity).flushing[a.thread] == Received(s.c[0]);
    }
    if s.lock.Adding? && s.lock.entry !in s.c {
      var t :| t in s.flushing && s.flushing[t] == Received(s.lock.entry);
      assert a.CloseAdd? || (t in Step(s, a, capacity).flushing && Step(s, a, capacity).flushing[t] == s.flushing[t]);
    }
  }

  lemma {:induction false} QueuedAtLeast(c: seq<string>, entry: string)
    requires forall k :: 0 <= k < |c| ==> SizeOf(c[k]) >= 0
    ensures Queued(c) >= if entry in c then SizeOf(entry) else 0
  {
    if c != [] {
      QueuedAtLeast(c[1..], entry);
    }
  }

  lemma InFlushAtLeast(flushing: map<nat, Flush>, t: nat)
    requires forall u :: u in flushing ==> SizeOf(flushing[u].entry) >= 0
    ensures InFlush(flushing) >= if t in flushing then SizeOf(flushing[t].entry) else 0
  {
    if t in flushing {
      InFlushWithout(flushing, t);
      MapSumNonNegative(FlushSizes(flushing - {t}));
    } else {
      MapSumNonNegative(FlushSizes(flushing));
    }
  }

  lemma NeverNegative(s: State)
    requires Inv(s)
    ensures s.total >= 0
  {
    var entry := if s.lock.Adding? then s.lock.entry else "";
    QueuedAtLeast(s.c, entry);
    QueuedAtLeast(s.c, "");
    if t :| t in s.flushing && s.flushing[t] == Received(entry) {
      InFlushAtLeast(s.flushing, t);
    }
    MapSumNonNegative(FlushSizes(s.flushing));
  }

  ghost predicate IsRun(states: seq<State>, actions: seq<Action>, capacity: nat)
  {
    && |states| == |actions| + 1
    && states[0] == INITIAL
    && forall k :: 0 <= k < |actions| ==>
         Enabled(states[k], actions[k]) && states[k + 1] == Step(states[k], actions[k], capacity)
  }

  /** In every interleaving the total never goes negative, equals the bytes queued and being flushed whenever the lock is
      free, and returns to zero when nothing is on its way. */
  lemma {:induction false} EveryRunIsBalanced(states: seq<State>, actions: seq<Action>, capacity: nat)
    requires IsRun(states, actions, capacity)
    ensures forall k :: 0 <= k < |states| ==> states[k].total >= 0
    ensures forall k :: 0 <= k < |states| && states[k].lock.Free? ==>
              states[k].total == Queued(states[k].c) + InFlush(states[k].flushing)
    ensures forall k :: 0 <= k < |states| && states[k].lock.Free? && states[k].c == [] && states[k].flushing == map[] ==>
              states[k].total == 0
  {
    assert FlushSizes(map[]) == map[];
    for k := 0 to |actions|
      invariant forall j :: 0 <= j <= k ==> Inv(states[j])
    {
      StepKeepsInv(states[k], actions[k], capacity);
    }
    forall k | 0 <= k < |states| ensures states[k].total >= 0 && Balanced(states[k]) {
      NeverNegative(states[k]);
    }
  }

  /** The lock matters: a flush that could go on while a Close had sent but not yet added would drive the total below zero. */
  lemma LockIsNeeded(size: nat, key: string)
    requires size > 0
    ensures var sent := Step(INITIAL, CloseSend(size, key), 1);
      var received := Step(sent, FlushReceive(0), 1);
      && !Enabled(received, FlushLookup(0))
      && received.(flushing := map[0 := LookedUp(received.flushing[0].entry)]).total - SizeOf(EntryOf(size, key)) < 0
  {
    EntryRoundTrip(size, key);
  }
}
