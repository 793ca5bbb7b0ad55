/** The memory cache: the steps of its operations that hold the storage lock, on the storage's own fields
    (internal/caches/storage_memory.go, writer_memory.go). A goroutine is a number; its writer is what the numbers stand for. */
module MemoryStorage {
  import opened Bytes
  import opened Decimal
  import opened Wrappers
  import D = DirtyQueue
  import M = MemoryList
  import W = WritingKeys

  datatype MemoryItem = MemoryItem(expiresAt: int, status: int, header: ByteString, body: ByteString, isDone: bool)
  {
    predicate IsExpired(now: int) { expiresAt < now }
  }

  datatype MemoryWriter = MemoryWriter(
    key: string, item: MemoryItem, isDirty: bool, expectedBodySize: nat, maxSize: int, released: bool)

  datatype CacheError = FileIsWriting | WritingQueueFull | OverCapacity | UnexpectedContentLength | EntityTooLarge

  const QUEUE_DELTA := 64

  function Slots(writers: map<nat, MemoryWriter>): map<nat, W.Writer>
  {
    map id | id in writers :: W.Writer(writers[id].key, writers[id].released)
  }

  lemma SlotKept(writers: map<nat, MemoryWriter>, id: nat, w: MemoryWriter)
    requires id in writers && writers[id].key == w.key && writers[id].released == w.released
    ensures Slots(writers[id := w]) == Slots(writers)
  {
  }

  /** The map is the old one, or that without the key. */
  predicate AllBut<K, V(==)>(m: map<K, V>, was: map<K, V>, key: K)
  {
    m == was || m == was - {key}
  }

  lemma RemoveAgain<K, V>(m: map<K, V>, was: map<K, V>, key: K)
    requires AllBut(m, was, key)
    ensures m - {key} == was - {key}
  {
  }

  class MemoryStorage {
    const hash: string -> nat
    const hasParent: bool
    const dirtyQueueSize: nat
    const list: M.MemoryList
    var valuesMap: map<nat, MemoryItem>
    var writingKeyMap: set<string>
    var dirtyChan: seq<string>
    var totalDirtySize: int

    // the goroutines
    var writers: map<nat, MemoryWriter>
    var flushing: map<nat, D.Flush>
    var lock: D.Lock

    ghost function Keys(): W.State
      reads this`writingKeyMap, this`writers
    {
      W.State(writingKeyMap, Slots(writers))
    }

    ghost function Dirty(): D.State
      reads this`dirtyChan, this`flushing, this`lock, this`totalDirtySize
    {
      D.State(dirtyChan, flushing, lock, totalDirtySize)
    }

    constructor (hash: string -> nat, hasParent: bool, dirtyQueueSize: nat)
      ensures list.Valid() && list.Exact() && fresh(list) && list.items == map[] && valuesMap == map[]
      ensures Keys() == W.INITIAL && Dirty() == D.INITIAL
      ensures this.hash == hash && this.hasParent == hasParent && this.dirtyQueueSize == dirtyQueueSize
    {
      this.hash, this.hasParent, this.dirtyQueueSize := hash, hasParent, dirtyQueueSize;
      list := new M.MemoryList();
      valuesMap, writingKeyMap, dirtyChan, totalDirtySize := map[], {}, [], 0;
      writers, flushing, lock := map[], map[], D.Free;
    }

    /** An unexpired value that the list has too, unexpired. */
    ghost predicate IsStored(h: nat, now: int)
      reads this`valuesMap, list`items
    {
      && h in valuesMap && valuesMap[h].expiresAt >= now
      && Format(h) in list.items && list.items[Format(h)].expiresAt >= now
    }

    /** The bytes in use once an unexpired value that the list has lost, or has as expired, is dropped. */
    ghost function UsedBeside(h: nat, now: int): int
      requires !IsStored(h, now)
      reads this`valuesMap, list`items, list`usedSize
    {
      if h in valuesMap && valuesMap[h].expiresAt >= now then list.usedSize - M.BytesOf(list.items, Format(h))
      else list.usedSize
    }

    /** An opening succeeds exactly when the queue is not nearly full, the key is not being written or stored, and there is
        room. The writer has an empty item with the response's expiry and status, the key's slot is taken, and no older
        value or list entry of the key is left; other writers are left alone. */
    method OpenWriter(id: nat, key: string, expiresAt: int, status: int, bodySize: int, maxSize: int, isDirty: bool,
        capacityBytes: int, now: int)
      returns (r: Result<MemoryWriter, CacheError>)
      requires lock.Free? && list.Valid() && id !in writers
      modifies this`valuesMap, this`writingKeyMap, this`writers, list
      ensures unchanged(list`lostCount, list`lostBytes)
      ensures list.Valid()
      ensures Keys() == W.Step(old(Keys()), W.Open(key, id, r.Failure?))
      ensures r ==
        if isDirty && hasParent && dirtyQueueSize > 0 && |dirtyChan| >= dirtyQueueSize - 64 then Failure(WritingQueueFull)
        else if key in old(writingKeyMap) || old(IsStored(hash(key), now)) then Failure(FileIsWriting)
        else if 0 < capacityBytes <= old(UsedBeside(hash(key), now)) + (if bodySize < 0 then 0 else bodySize)
        then Failure(OverCapacity)
        else Success(MemoryWriter(key, MemoryItem(expiresAt, status, [], [], false), isDirty,
                                  if bodySize < 0 then 0 else bodySize, maxSize, false))
      ensures writers == if r.Success? then old(writers)[id := r.value] else old(writers)
      ensures r.Success? ==>
        && valuesMap == old(valuesMap) - {hash(key)} && list.items == old(list.items) - {Format(hash(key))}
        && (capacityBytes > 0 ==> list.usedSize + r.value.expectedBodySize < capacityBytes)
    {
      if isDirty && hasParent && dirtyQueueSize > 0 && |dirtyChan| >= dirtyQueueSize - QUEUE_DELTA {
        return Failure(WritingQueueFull);
      }
      if key in writingKeyMap {
        return Failure(FileIsWriting);
      }
      var size := if bodySize < 0 then 0 else bodySize;
      var w := MemoryWriter(key, MemoryItem(expiresAt, status, [], [], false), isDirty, size, maxSize, false);
      var err := Begin(id, w, capacityBytes, now);
      return if err.Some? then Failure(err.value) else Success(w);
    }

    /** The part under the lock, once the slot is free. */
    method Begin(id: nat, w: MemoryWriter, capacityBytes: int, now: int) returns (err: Option<CacheError>)
      requires list.Valid() && id !in writers && w.key !in writingKeyMap && !w.released
      modifies this`valuesMap, this`writingKeyMap, this`writers, list
      ensures unchanged(list`lostCount, list`lostBytes) && list.Valid()
      ensures Keys() == W.Step(old(Keys()), W.Open(w.key, id, err.Some?))
      ensures err == if old(IsStored(hash(w.key), now)) then Some(FileIsWriting)
                     else if 0 < capacityBytes <= old(UsedBeside(hash(w.key), now)) + w.expectedBodySize then Some(OverCapacity)
                     else None
      ensures writers == if err.None? then old(writers)[id := w] else old(writers)
      ensures err.None? ==>
        && valuesMap == old(valuesMap) - {hash(w.key)} && list.items == old(list.items) - {Format(hash(w.key))}
        && (capacityBytes > 0 ==> list.usedSize + w.expectedBodySize < capacityBytes)
    {
      err := Prepare(hash(w.key), w.expectedBodySize, capacityBytes, now);
      if err.None? {
        TakeSlot(id, w.key, w);
      }
    }

    /** The checks that are made with the slot taken, and the removal of what was stored before. */
    method Prepare(h: nat, size: nat, capacityBytes: int, now: int) returns (err: Option<CacheError>)
      requires list.Valid()
      modifies this`valuesMap, list
      ensures unchanged(list`lostCount, list`lostBytes)
      ensures list.Valid()
      ensures err == if old(IsStored(h, now)) then Some(FileIsWriting)
                     else if 0 < capacityBytes <= old(UsedBeside(h, now)) + size then Some(OverCapacity) else None
      ensures err.None? ==>
        && valuesMap == old(valuesMap) - {h} && list.items == old(list.items) - {Format(h)}
        && (capacityBytes > 0 ==> list.usedSize + size < capacityBytes)
    {
      var busy := FindStored(h, now);
      if busy {
        return Some(FileIsWriting);
      }
      RemoveAgain(valuesMap, old(valuesMap), h);
      RemoveAgain(list.items, old(list.items), Format(h));
      var hasRoom := MakeRoom(h, size, capacityBytes);
      return if hasRoom then None else Some(OverCapacity);
    }

    /** Drops what is stored, if the bytes in use leave room for so many more. */
    method MakeRoom(h: nat, size: nat, capacityBytes: int) returns (hasRoom: bool)
      requires list.Valid()
      modifies this`valuesMap, list
      ensures unchanged(list`lostCount, list`lostBytes)
      ensures list.Valid()
      ensures hasRoom <==> capacityBytes <= 0 || old(list.usedSize) + size < capacityBytes
      ensures hasRoom ==> valuesMap == old(valuesMap) - {h} && list.items == old(list.items) - {Format(h)}
      ensures hasRoom && capacityBytes > 0 ==> list.usedSize + size < capacityBytes
    {
      if capacityBytes > 0 && capacityBytes <= list.usedSize + size {
        return false;
      }
      M.SizeShrinks(list.items, Format(h));
      DropStored(h);
      return true;
    }

    /** An unexpired value blocks a new writer while the list has it too; one that the list has lost is dropped. */
    method FindStored(h: nat, now: int) returns (yes: bool)
      requires list.Valid()
      modifies this`valuesMap, list
      ensures unchanged(list`lostCount, list`lostBytes)
      ensures list.Valid()
      ensures yes <==> old(IsStored(h, now))
      ensures yes ==> valuesMap == old(valuesMap) && list.items == old(list.items)
      ensures !yes ==> AllBut(valuesMap, old(valuesMap), h) && AllBut(list.items, old(list.items), Format(h))
      ensures !yes ==> list.usedSize == old(UsedBeside(h, now))
    {
      if h in valuesMap && !valuesMap[h].IsExpired(now) {
        yes := list.Exist(Format(h), now);
        if !yes {
          DropStored(h);
        }
      } else {
        yes := false;
      }
    }

    method DropStored(h: nat)
      requires list.Valid()
      modifies this`valuesMap, list
      ensures unchanged(list`lostCount, list`lostBytes)
      ensures list.Valid() && list.items == old(list.items) - {Format(h)} && valuesMap == old(valuesMap) - {h}
      ensures list.usedSize == old(list.usedSize) - M.BytesOf(old(list.items), Format(h))
    {
      valuesMap := valuesMap - {h};
      list.Remove(Format(h));
    }

    method TakeSlot(id: nat, key: string, w: MemoryWriter)
      requires id !in writers && key !in writingKeyMap && w.key == key && !w.released
      modifies this`writingKeyMap, this`writers
      ensures Keys() == W.Step(old(Keys()), W.Open(key, id, false)) && writers == old(writers)[id := w]
    {
      writingKeyMap, writers := writingKeyMap + {key}, writers[id := w];
    }

    method WriteHeader(id: nat, data: ByteString)
      requires id in writers
      modifies this`writers
      ensures var w := old(writers[id]);
        writers == old(writers)[id := w.(item := w.item.(header := w.item.header + data))]
      ensures Keys() == old(Keys())
    {
      var w := writers[id];
      writers := writers[id := w.(item := w.item.(header := w.item.header + data))];
    }

    /** The data is kept even when it makes the body too large. */
    method Write(id: nat, data: ByteString) returns (err: Option<CacheError>)
      requires id in writers
      modifies this`writers
      ensures var w := old(writers[id]);
        writers == old(writers)[id := w.(item := w.item.(body := w.item.body + data))]
      ensures Keys() == old(Keys())
      ensures err.Some? <==> data != [] && 0 < writers[id].maxSize < |writers[id].item.body|
    {
      if |data| == 0 {
        assert writers[id].item.body + data == writers[id].item.body;
        return None;
      }
      var w := writers[id];
      w := w.(item := w.item.(body := w.item.body + data));
      writers := writers[id := w];
      if w.maxSize > 0 && |w.item.body| > w.maxSize {
        return Some(EntityTooLarge);
      }
      return None;
    }

    /** Close up to the point where it has sent. A body of another length than announced, or one that finds the queue full,
        is dropped together with any value under the same hash; every other one is published as it was written. */
    method CloseBody(id: nat) returns (err: Option<CacheError>)
      requires lock.Free? && id in writers
      modifies this`valuesMap, this`dirtyChan, this`lock, this`writers
      ensures Keys() == old(Keys()) && id in writers
      ensures var w := old(writers[id]); var h, size := hash(w.key), |w.item.body|;
        && (err == Some(UnexpectedContentLength) <==> w.expectedBodySize > 0 && size != w.expectedBodySize)
        && (err == Some(WritingQueueFull) <==>
              err != Some(UnexpectedContentLength) && w.isDirty && hasParent && |old(dirtyChan)| >= dirtyQueueSize)
        && (err.None? <==> err != Some(UnexpectedContentLength) && err != Some(WritingQueueFull))
        && valuesMap == (if err.None? then old(valuesMap)[h := w.item.(isDone := true)] else old(valuesMap) - {h})
        && Dirty() == if err != Some(UnexpectedContentLength) && w.isDirty && hasParent
                      then D.Step(old(Dirty()), D.CloseSend(size, w.key), dirtyQueueSize)
                      else old(Dirty())
    {
      var w := writers[id];
      var h := hash(w.key);
      if w.expectedBodySize > 0 && |w.item.body| != w.expectedBodySize {
        valuesMap := valuesMap - {h};
        return Some(UnexpectedContentLength);
      }
      w := w.(item := w.item.(isDone := true));
      SlotKept(writers, id, w);
      writers := writers[id := w];
      if w.isDirty && hasParent {
        valuesMap := valuesMap[h := w.item];
        if |dirtyChan| < dirtyQueueSize {
          var entry := D.EntryOf(|w.item.body|, w.key);
          dirtyChan, lock := dirtyChan + [entry], D.Adding(entry);
        } else {
          valuesMap := valuesMap - {h};
          return Some(WritingQueueFull);
        }
      } else {
        valuesMap := valuesMap[h := w.item];
      }
      return None;
    }

    /** The addition of a Close that has sent, still under the lock. */
    method CloseAdd()
      requires lock.Adding?
      modifies this`totalDirtySize, this`lock
      ensures Dirty() == D.Step(old(Dirty()), D.CloseAdd, dirtyQueueSize)
    {
      totalDirtySize := totalDirtySize + D.SizeOf(lock.entry);
      lock := D.Free;
    }

    /** The once-guarded end of Close and Discard. */
    method End(id: nat)
      requires id in writers
      modifies this`writingKeyMap, this`writers
      ensures Keys() == W.Step(old(Keys()), W.End(id))
      ensures writers == old(writers)[id := old(writers[id]).(released := true)]
    {
      var w := writers[id];
      if w.released {
        assert w == w.(released := true) && writers == writers[id := w];
        return;
      }
      writingKeyMap, writers := writingKeyMap - {w.key}, writers[id := w.(released := true)];
    }

    /** Close as a whole, when no other step comes in between: what it queues is what it adds to the total. */
    method Close(id: nat) returns (err: Option<CacheError>)
      requires lock.Free? && id in writers
      modifies this`valuesMap, this`dirtyChan, this`lock, this`totalDirtySize, this`writers, this`writingKeyMap
      ensures lock.Free? && Keys() == W.Step(old(Keys()), W.End(id))
      ensures var w := old(writers[id]); var size := |w.item.body|;
        if err.None? && w.isDirty && hasParent
        then dirtyChan == old(dirtyChan) + [D.EntryOf(size, w.key)] && totalDirtySize == old(totalDirtySize) + size
        else dirtyChan == old(dirtyChan) && totalDirtySize == old(totalDirtySize)
      ensures var w := old(writers[id]); var size := |w.item.body|;
        err == if w.expectedBodySize > 0 && size != w.expectedBodySize then Some(UnexpectedContentLength)
               else if w.isDirty && hasParent && |old(dirtyChan)| >= dirtyQueueSize then Some(WritingQueueFull) else None
      ensures var w := old(writers[id]);
        valuesMap == if err.None? then old(valuesMap)[hash(w.key) := w.item.(isDone := true)]
                     else old(valuesMap) - {hash(w.key)}
    {
      ghost var w := writers[id];
      D.EntryRoundTrip(|w.item.body|, w.key);
      err := CloseBody(id);
      if lock.Adding? {
        CloseAdd();
      }
      End(id);
    }

    /** The slot is given up once, but a value under the key's hash goes at every call, whoever stored it. */
    method Discard(id: nat)
      requires lock.Free? && id in writers
      modifies this`valuesMap, this`writingKeyMap, this`writers
      ensures Keys() == W.Step(old(Keys()), W.End(id)) && valuesMap == old(valuesMap) - {hash(old(writers[id].key))}
    {
      valuesMap := valuesMap - {hash(writers[id].key)};
      End(id);
    }

    /** The whole life of one response in the memory cache: opened, written and closed with success, it is stored as it was
        brought, and closing fails only for a body of another length than announced or a full queue. */
    method StoreResponse(id: nat, key: string, expiresAt: int, status: int, bodySize: int, isDirty: bool, header: ByteString,
        body: ByteString, capacityBytes: int, now: int)
      returns (began: bool, err: Option<CacheError>)
      requires lock.Free? && list.Valid() && id !in writers
      modifies this, list
      ensures list.Valid() && lock.Free?
      ensures began ==> key !in writingKeyMap
      ensures began ==>
        (err.None? <==> (bodySize > 0 ==> bodySize == |body|) && (isDirty && hasParent ==> |old(dirtyChan)| < dirtyQueueSize))
      ensures began && err.None? ==>
        valuesMap == old(valuesMap)[hash(key) := MemoryItem(expiresAt, status, header, body, true)]
      ensures began && err.Some? ==> valuesMap == old(valuesMap) - {hash(key)}
    {
      began := BeginResponse(id, key, expiresAt, status, bodySize, isDirty, header, body, capacityBytes, now);
      err := None;
      if began {
        err := CloseFirst(id);
        Replaced(old(valuesMap), hash(key), MemoryItem(expiresAt, status, header, body, true));
      }
    }

    method BeginResponse(id: nat, key: string, expiresAt: int, status: int, bodySize: int, isDirty: bool, header: ByteString,
        body: ByteString, capacityBytes: int, now: int)
      returns (began: bool)
      requires lock.Free? && list.Valid() && id !in writers
      modifies this`valuesMap, this`writingKeyMap, this`writers, list
      ensures list.Valid()
      ensures began ==>
        && id in writers && writers[id] == MemoryWriter(key, MemoryItem(expiresAt, status, header, body, false), isDirty,
                                                        if bodySize < 0 then 0 else bodySize, -1, false)
        && valuesMap == old(valuesMap) - {hash(key)}
    {
      var r := OpenWriter(id, key, expiresAt, status, bodySize, -1, isDirty, capacityBytes, now);
      began := r.Success?;
      if began {
        WriteBoth(id, header, body);
      }
    }

    method WriteBoth(id: nat, header: ByteString, body: ByteString)
      requires id in writers && writers[id].item.header == [] && writers[id].item.body == []
      modifies this`writers
      ensures var w := old(writers[id]);
        writers == old(writers)[id := w.(item := w.item.(header := header, body := body))]
    {
      WriteHeader(id, header);
      assert [] + header == header && [] + body == body;
      var _ := Write(id, body);
    }

    lemma Replaced(values: map<nat, MemoryItem>, h: nat, item: MemoryItem)
      ensures (values - {h})[h := item] == values[h := item] && values - {h} - {h} == values - {h}
    {
    }

    /** Close on a writer that has not ended. */
    method CloseFirst(id: nat) returns (err: Option<CacheError>)
      requires lock.Free? && id in writers && !writers[id].released
      modifies this`valuesMap, this`dirtyChan, this`lock, this`totalDirtySize, this`writers, this`writingKeyMap
      ensures lock.Free? && old(writers[id]).key !in writingKeyMap
      ensures var w := old(writers[id]);
        && (err.None? <==>
              && (w.expectedBodySize > 0 ==> w.expectedBodySize == |w.item.body|)
              && (w.isDirty && hasParent ==> |old(dirtyChan)| < dirtyQueueSize))
        && valuesMap == if err.None? then old(valuesMap)[hash(w.key) := w.item.(isDone := true)]
                        else old(valuesMap) - {hash(w.key)}
    {
      ghost var slots := Keys();
      err := Close(id);
      assert Keys() == W.Step(slots, W.End(id));
    }

    // ---------- late calls ----------

    /** Close on a writer that has ended already leaves every slot as it is, but publishes the writer's old item over
        whatever a newer writer of the key has published, and queues it once more. */
    method LateClose(id: nat, newer: MemoryItem) returns (err: Option<CacheError>)
      requires lock.Free? && id in writers && writers[id].released
      requires hash(writers[id].key) in valuesMap && valuesMap[hash(writers[id].key)] == newer
      requires newer.body != writers[id].item.body
      modifies this`valuesMap, this`dirtyChan, this`lock, this`totalDirtySize, this`writers, this`writingKeyMap
      ensures Keys() == old(Keys())
      ensures var w := old(writers[id]); var h := hash(w.key);
        if err.None? then h in valuesMap && valuesMap[h] == w.item.(isDone := true) != newer else h !in valuesMap
      ensures err.None? && old(writers[id]).isDirty && hasParent ==>
        |dirtyChan| == |old(dirtyChan)| + 1 && totalDirtySize == old(totalDirtySize) + |old(writers[id]).item.body|
    {
      err := Close(id);
    }

    /** Discard on such a writer removes the newer value. */
    method LateDiscard(id: nat)
      requires lock.Free? && id in writers && writers[id].released && hash(writers[id].key) in valuesMap
      modifies this`valuesMap, this`writingKeyMap, this`writers
      ensures Keys() == old(Keys()) && hash(old(writers[id].key)) !in valuesMap
    {
      Discard(id);
    }

    // ---------- flushing ----------

    method FlushReceive(thread: nat)
      requires thread !in flushing && dirtyChan != []
      modifies this`dirtyChan, this`flushing
      ensures Dirty() == D.Step(old(Dirty()), D.FlushReceive(thread), dirtyQueueSize)
    {
      flushing := flushing[thread := D.Received(dirtyChan[0])];
      dirtyChan := dirtyChan[1..];
    }

    /** What is flushed is the value now stored for the key that the entry was made for. */
    method FlushLookup(thread: nat, ghost size: nat, ghost key: string) returns (item: Option<MemoryItem>)
      requires thread in flushing && lock.Free? && flushing[thread] == D.Received(D.EntryOf(size, key))
      modifies this`flushing
      ensures Dirty() == D.Step(old(Dirty()), D.FlushLookup(thread), dirtyQueueSize)
      ensures item == if hash(key) in valuesMap then Some(valuesMap[hash(key)]) else None
    {
      D.EntryRoundTrip(size, key);
      var entry := flushing[thread].entry;
      var cut := D.Cut(entry);
      flushing := flushing[thread := D.LookedUp(entry)];
      var h := hash(cut.value.1);
      item := if h in valuesMap then Some(valuesMap[h]) else None;
    }

    method FlushSubtract(thread: nat)
      requires thread in flushing && flushing[thread].LookedUp?
      modifies this`totalDirtySize, this`flushing
      ensures Dirty() == D.Step(old(Dirty()), D.FlushSubtract(thread), dirtyQueueSize)
    {
      totalDirtySize := totalDirtySize - D.SizeOf(flushing[thread].entry);
      flushing := flushing - {thread};
    }

    // ---------- values and list ----------

    method Delete(key: string)
      requires lock.Free? && list.Valid()
      modifies this`valuesMap, list
      ensures unchanged(list`lostCount, list`lostBytes)
      ensures list.Valid() && list.items == old(list.items) - {Format(hash(key))} && valuesMap == old(valuesMap) - {hash(key)}
    {
      valuesMap := valuesMap - {hash(key)};
      list.Remove(Format(hash(key)));
    }

    method CleanAll()
      requires lock.Free? && list.Valid()
      modifies this`valuesMap, list
      ensures list.Valid() && list.Exact() && list.items == map[] && valuesMap == map[] && list.usedSize == 0
    {
      valuesMap := map[];
      list.CleanAll();
    }
  }
}
