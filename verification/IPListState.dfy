/** The list itself: five containers kept in step (internal/iplibrary/ip_list.go). */
module IPListState {
  import opened IPLists
  import opened Wrappers

  // ---------- the containers after one item has gone or come ----------

  ghost predicate OwnIds(items: map<nat, IPItem>)
  {
    forall id :: id in items ==> items[id].id == id
  }

  function Without(rs: seq<IPItem>, index: nat): (r: seq<IPItem>)
    requires index < |rs|
    ensures |r| == |rs| - 1
    ensures forall i {:trigger r[i]} :: 0 <= i < |r| ==> r[i] == rs[if i < index then i else i + 1]
  {
    rs[..index] + rs[index + 1..]
  }

  lemma RangeGone(rs: seq<IPItem>, items: map<nat, IPItem>, index: nat)
    requires HoldsRanges(rs, items) && OwnIds(items) && index < |rs|
    ensures HoldsRanges(Without(rs, index), items - {rs[index].id})
  {
    var id, after := rs[index].id, Without(rs, index);
    forall i | 0 <= i < |after|
      ensures after[i].id != id && after[i].id in items && items[after[i].id] == after[i] && IsRange(after[i])
    {
      var k := if i < index then i else i + 1;
      assert after[i] == rs[k] && k != index;
    }
    forall j | j in items - {id} && IsRange(items[j]) ensures items[j] in after {
      OthersStay(rs, index, items[j]);
    }
    DistinctWithout(rs, index);
  }

  lemma OthersStay(rs: seq<IPItem>, index: nat, item: IPItem)
    requires index < |rs| && item in rs && item != rs[index]
    ensures item in Without(rs, index)
  {
    var k :| 0 <= k < |rs| && rs[k] == item;
    assert Without(rs, index)[if k < index then k else k - 1] == rs[k];
  }

  lemma DistinctWithout(rs: seq<IPItem>, index: nat)
    requires DistinctIds(rs) && index < |rs|
    ensures DistinctIds(Without(rs, index))
  {
    var after := Without(rs, index);
    forall i, j | 0 <= i < j < |after| ensures after[i].id != after[j].id {
      var k, l := if i < index then i else i + 1, if j < index then j else j + 1;
      assert after[i] == rs[k] && after[j] == rs[l] && k < l;
    }
  }

  lemma OtherGone(rs: seq<IPItem>, items: map<nat, IPItem>, id: nat)
    requires HoldsRanges(rs, items) && (id in items ==> !IsRange(items[id]))
    ensures HoldsRanges(rs, items - {id})
  {
  }

  lemma RangeCome(rs: seq<IPItem>, items: map<nat, IPItem>, item: IPItem)
    requires HoldsRanges(rs, items) && item.id !in items && IsRange(item)
    ensures HoldsRanges(rs + [item], items[item.id := item])
  {
    var after := rs + [item];
    assert forall i :: 0 <= i < |rs| ==> after[i] == rs[i];
    assert after[|rs|] == item;
  }

  lemma OtherCome(rs: seq<IPItem>, items: map<nat, IPItem>, item: IPItem)
    requires HoldsRanges(rs, items) && item.id !in items && !IsRange(item)
    ensures HoldsRanges(rs, items[item.id := item])
  {
  }

  lemma SortedWithout(cmp: Compare, rs: seq<IPItem>, index: nat)
    requires Sorted(cmp, rs) && index < |rs|
    ensures Sorted(cmp, Without(rs, index))
  {
  }

  /** The entry of a deleted item is under the item's own address, if it is there at all. */
  lemma SinglesGone(ips: map<IP, IPItem>, items: map<nat, IPItem>, id: nat)
    requires HoldsSingles(ips, items) && id in items
    ensures HoldsSingles(WithoutId(ips, id), items - {id})
    ensures WithoutId(ips, id) ==
            var ip := items[id].ipFrom;
            if items[id].ipTo == [] && ip in ips && ips[ip].id == id then ips - {ip} else ips
  {
    forall ip | ip in ips && ips[ip].id == id ensures ip == items[id].ipFrom && items[id].ipTo == [] {
      assert items[ips[ip].id] == ips[ip];
    }
  }

  lemma NoSuchItem(ips: map<IP, IPItem>, items: map<nat, IPItem>, id: nat)
    requires HoldsSingles(ips, items) && id !in items
    ensures items - {id} == items && WithoutId(ips, id) == ips
  {
  }

  function WithoutId(ips: map<IP, IPItem>, id: nat): map<IP, IPItem>
  {
    map ip | ip in ips && ips[ip].id != id :: ips[ip]
  }

  /** The items as they become when one more buffered item is taken in. */
  lemma MergeOneMore(cmp: Compare, a: Abstract, done: set<nat>, id: nat, now: int)
    requires id in a.buffer && id !in done && BufferOk(a.buffer) && TotalOrder(cmp)
    ensures Merged(cmp, a, done + {id}, now)
         == match Accepted(cmp, a.buffer[id], now)
            case None => Merged(cmp, a, done, now)
            case Some(i) => Merged(cmp, a, done, now)[id := i]
  {
  }

  /** Everything but the order of the ranges. */
  ghost predicate InStep(cmp: Compare, items: map<nat, IPItem>, rs: seq<IPItem>, ips: map<IP, IPItem>,
      all: map<nat, IPItem>, buffer: map<nat, IPItem>)
  {
    && ItemsOk(cmp, items)
    && all == AllItems(items)
    && HoldsRanges(rs, items)
    && HoldsSingles(ips, items)
    && BufferOk(buffer)
  }

  lemma InStepWithout(cmp: Compare, items: map<nat, IPItem>, rs: seq<IPItem>, ips: map<IP, IPItem>,
      all: map<nat, IPItem>, buffer: map<nat, IPItem>, id: nat)
    requires ItemsOk(cmp, items) && all == AllItems(items) && BufferOk(buffer)
    requires HoldsRanges(rs, items - {id}) && HoldsSingles(ips, items - {id})
    ensures InStep(cmp, items - {id}, rs, ips, all - {id}, buffer - {id})
  {
    assert AllItems(items - {id}) == AllItems(items) - {id};
  }

  /** One buffered item more: what addItem does to the items is what Merged says. */
  lemma FlushOneMore(cmp: Compare, a: Abstract, done: set<nat>, id: nat, now: int, b: Abstract)
    requires id in a.buffer && id !in done && BufferOk(a.buffer) && TotalOrder(cmp)
    requires b.items == Merged(cmp, a, done, now)
    ensures AddedUnsorted(cmp, b, a.buffer[id], now).items == Merged(cmp, a, done + {id}, now)
    ensures forall j :: j in b.buffer && j != id ==>
      j in AddedUnsorted(cmp, b, a.buffer[id], now).buffer && AddedUnsorted(cmp, b, a.buffer[id], now).buffer[j] == b.buffer[j]
  {
    MergeOneMore(cmp, a, done, id, now);
    if Accepted(cmp, a.buffer[id], now).Some? {
      AcceptedIsNormal(cmp, a.buffer[id], now);
    }
  }

  lemma NothingDone(cmp: Compare, a: Abstract, now: int)
    ensures Merged(cmp, a, {}, now) == a.items
  {
  }

  lemma NothingToFlush(cmp: Compare, a: Abstract, now: int)
    requires a.buffer == map[]
    ensures Flushed(cmp, a, now) == a
  {
    assert Merged(cmp, a, {}, now) == a.items;
  }

  lemma PutAfterDelete(items: map<nat, IPItem>, i: IPItem)
    ensures (items - {i.id})[i.id := i] == items[i.id := i]
  {
  }

  /** The addresses after an item has been placed. */
  function Placed(ips: map<IP, IPItem>, i: IPItem): map<IP, IPItem>
  {
    PlacedNew(WithoutId(ips, i.id), i)
  }

  function PlacedNew(ips: map<IP, IPItem>, i: IPItem): map<IP, IPItem>
  {
    if IsSingle(i) then ips[i.ipFrom := i] else ips
  }

  lemma SinglesPlaced(ips: map<IP, IPItem>, items: map<nat, IPItem>, i: IPItem)
    requires HoldsSingles(ips, items) && i.id !in items
    ensures HoldsSingles(PlacedNew(ips, i), items[i.id := i])
  {
  }

  lemma AllPlaced(items: map<nat, IPItem>, i: IPItem)
    requires i.id !in items
    ensures AllItems(items[i.id := i]) == if i.kind == ALL then AllItems(items)[i.id := i] else AllItems(items)
  {
  }

  // ---------- shared addresses ----------

  /** Every item on a single address is the one that a lookup of the address finds. */
  ghost predicate OwnsAddress(ips: map<IP, IPItem>, items: map<nat, IPItem>)
  {
    forall id :: id in items && IsSingle(items[id]) ==> items[id].ipFrom in ips && ips[items[id].ipFrom] == items[id]
  }

  ghost predicate SharesAddress(items: map<nat, IPItem>, i: IPItem)
  {
    exists id :: id in items && id != i.id && IsSingle(items[id]) && items[id].ipFrom == i.ipFrom
  }

  /** Placing an item keeps every address owned exactly when no other item is on the same single address. */
  lemma AddKeepsOwners(ips: map<IP, IPItem>, items: map<nat, IPItem>, i: IPItem)
    requires HoldsSingles(ips, items) && OwnsAddress(ips, items) && OwnIds(items)
    ensures OwnsAddress(Placed(ips, i), items[i.id := i]) <==> !(IsSingle(i) && SharesAddress(items, i))
  {
    var after, itemsAfter := Placed(ips, i), items[i.id := i];
    if IsSingle(i) && SharesAddress(items, i) {
      var id :| id in items && id != i.id && IsSingle(items[id]) && items[id].ipFrom == i.ipFrom;
      assert itemsAfter[id] == items[id] && after[items[id].ipFrom] == i;
    } else {
      forall id | id in itemsAfter && IsSingle(itemsAfter[id])
        ensures itemsAfter[id].ipFrom in after && after[itemsAfter[id].ipFrom] == itemsAfter[id]
      {
        if id != i.id {
          assert itemsAfter[id] == items[id] && ips[items[id].ipFrom].id == id;
        }
      }
    }
  }

  lemma DeleteKeepsOwners(ips: map<IP, IPItem>, items: map<nat, IPItem>, id: nat)
    requires HoldsSingles(ips, items) && OwnsAddress(ips, items) && OwnIds(items)
    ensures OwnsAddress(WithoutId(ips, id), items - {id})
  {
    forall j | j in items - {id} && IsSingle(items[j])
      ensures items[j].ipFrom in WithoutId(ips, id) && WithoutId(ips, id)[items[j].ipFrom] == items[j]
    {
      assert ips[items[j].ipFrom].id == j;
    }
  }

  ghost predicate NoSharing(items: map<nat, IPItem>)
  {
    forall a, b :: a in items && b in items && a != b && IsSingle(items[a]) && IsSingle(items[b]) ==>
      items[a].ipFrom != items[b].ipFrom
  }

  lemma OwnersDoNotShare(ips: map<IP, IPItem>, items: map<nat, IPItem>)
    requires OwnsAddress(ips, items) && OwnIds(items)
    ensures NoSharing(items)
  {
    forall a, b | a in items && b in items && a != b && IsSingle(items[a]) && IsSingle(items[b])
      ensures items[a].ipFrom != items[b].ipFrom
    {
      assert items[a].id == a && items[b].id == b;
    }
  }

  /** Placing an item when all addresses are owned: they are owned afterwards exactly when none is shared. */
  lemma PlacingOwned(ips: map<IP, IPItem>, items: map<nat, IPItem>, i: IPItem)
    requires HoldsSingles(ips, items) && OwnsAddress(ips, items) && OwnIds(items)
    ensures OwnsAddress(Placed(ips, i), items[i.id := i]) <==> NoSharing(items[i.id := i])
    ensures IsRange(i) ==> OwnsAddress(Placed(ips, i), items[i.id := i])
  {
    AddKeepsOwners(ips, items, i);
    var after := items[i.id := i];
    if OwnsAddress(Placed(ips, i), after) {
      OwnersDoNotShare(Placed(ips, i), after);
    } else {
      var id :| id in items && id != i.id && IsSingle(items[id]) && items[id].ipFrom == i.ipFrom;
      assert after[id] == items[id] && after[i.id] == i;
    }
  }

  /** While the buffer is taken in, an address may be without its owner only as long as the owner is still to be replaced. */
  ghost predicate OwnsMeanwhile(cmp: Compare, a: Abstract, todo: set<nat>, now: int, ips: map<IP, IPItem>,
      items: map<nat, IPItem>)
  {
    forall id :: id in items && IsSingle(items[id]) && !(id in todo && Takes(cmp, a.buffer, id, now)) ==>
      items[id].ipFrom in ips && ips[items[id].ipFrom] == items[id]
  }

  lemma MeanwhileOwned(cmp: Compare, a: Abstract, todo: set<nat>, id: nat, now: int, ips: map<IP, IPItem>,
      items: map<nat, IPItem>, i: IPItem)
    requires TotalOrder(cmp) && BufferOk(a.buffer) && id in todo && todo <= a.buffer.Keys
    requires items == Merged(cmp, a, a.buffer.Keys - todo, now) && OwnIds(items)
    requires Accepted(cmp, a.buffer[id], now) == Some(i) && i.id == id
    requires OwnsMeanwhile(cmp, a, todo, now, ips, items) && NoSharing(Merged(cmp, a, a.buffer.Keys, now))
    ensures OwnsMeanwhile(cmp, a, todo - {id}, now, Placed(ips, i), items[id := i])
  {
    var after, owned, final := items[id := i], Placed(ips, i), Merged(cmp, a, a.buffer.Keys, now);
    forall j | j in after && IsSingle(after[j]) && !(j in todo - {id} && Takes(cmp, a.buffer, j, now))
      ensures after[j].ipFrom in owned && owned[after[j].ipFrom] == after[j]
    {
      if j != id {
        assert after[j] == items[j] == final[j] && final[id] == i;
        assert ips[items[j].ipFrom].id == j;
      }
    }
  }

  /** Of two items on one address, deleting the later one makes the address unmatched although the earlier one stays. */
  lemma SharedAddressIsLost(ips: map<IP, IPItem>, items: map<nat, IPItem>, i: IPItem)
    requires HoldsSingles(ips, items) && IsSingle(i) && SharesAddress(items, i)
    ensures i.ipFrom !in WithoutId(Placed(ips, i), i.id)
    ensures exists id :: id in items[i.id := i] - {i.id} && IsSingle(items[id]) && items[id].ipFrom == i.ipFrom
  {
    var id :| id in items && id != i.id && IsSingle(items[id]) && items[id].ipFrom == i.ipFrom;
    assert id in items[i.id := i] - {i.id};
  }

  // ---------- lookups ----------

  /** Some live entry contains the address. */
  ghost predicate IsMatched(cmp: Compare, rs: seq<IPItem>, ips: map<IP, IPItem>, ip: IP, now: int)
  {
    || (ip in ips && IsLive(ips[ip], now))
    || (exists k :: 0 <= k < |rs| && InRange(cmp, rs[k], ip) && IsLive(rs[k], now))
  }

  /** What a lookup finds: a live single item of the address, or the last range it looks at that contains the address, if
      that one is live. */
  ghost predicate IsFound(cmp: Compare, rs: seq<IPItem>, ips: map<IP, IPItem>, ip: IP, now: int)
  {
    || (ip in ips && IsLive(ips[ip], now))
    || (exists h :: IsLastHit(cmp, rs, ip, h) && IsLive(rs[h], now))
  }

  /** Without overlaps that is any live entry that contains the address. */
  lemma FoundIsMatched(cmp: Compare, rs: seq<IPItem>, ips: map<IP, IPItem>, ip: IP, now: int)
    requires TotalOrder(cmp) && Sorted(cmp, rs) && AllRanges(cmp, rs)
    ensures IsFound(cmp, rs, ips, ip, now) ==> IsMatched(cmp, rs, ips, ip, now)
    ensures NoOverlap(cmp, rs) ==> (IsFound(cmp, rs, ips, ip, now) <==> IsMatched(cmp, rs, ips, ip, now))
  {
    SearchApplies(cmp, rs, ip);
    SearchIsExact(cmp, rs, ip);
    if NoOverlap(cmp, rs) {
      SearchDecides(cmp, rs, ip, now);
    }
  }

  /** An expired range can hide a live one, even one that the search has looked at: of three ranges the last two contain
      the address, the middle one is live and the last one, on which the search ends, is not. */
  lemma ExpiredHidesLive(cmp: Compare, a: IPItem, b: IPItem, c: IPItem, ips: map<IP, IPItem>, ip: IP, now: int)
    requires TotalOrder(cmp) && Sorted(cmp, [a, b, c]) && AllRanges(cmp, [a, b, c])
    requires InRange(cmp, b, ip) && InRange(cmp, c, ip) && IsLive(b, now) && !IsLive(c, now) && ip !in ips
    ensures 1 in Probed(0, 3, SplitOf(cmp, [a, b, c], ip))
    ensures IsMatched(cmp, [a, b, c], ips, ip, now) && !IsFound(cmp, [a, b, c], ips, ip, now)
  {
    var rs := [a, b, c];
    assert SplitOf(cmp, rs, ip) == 3;
    assert Probed(0, 3, 3) == {1} + Probed(2, 3, 3);
    assert Probed(2, 3, 3) == {2} + Probed(3, 3, 3);
    assert IsLastHit(cmp, rs, ip, 2);
    assert InRange(cmp, rs[1], ip) && IsLive(rs[1], now);
  }

  lemma RangesHaveOrderedEnds(cmp: Compare, rs: seq<IPItem>, items: map<nat, IPItem>)
    requires HoldsRanges(rs, items) && ItemsOk(cmp, items)
    ensures AllRanges(cmp, rs)
  {
    forall i | 0 <= i < |rs| ensures cmp(rs[i].ipFrom, rs[i].ipTo) < 0 {
      assert IsNormal(cmp, items[rs[i].id]);
    }
  }

  /** Without overlaps no range but the one the search ends on contains the address. */
  lemma SearchDecides(cmp: Compare, rs: seq<IPItem>, ip: IP, now: int)
    requires TotalOrder(cmp) && Sorted(cmp, rs) && AllRanges(cmp, rs) && NoOverlap(cmp, rs)
    ensures var r := Search(cmp, rs, ip, 0, |rs|, -1);
      (exists k :: 0 <= k < |rs| && InRange(cmp, rs[k], ip) && IsLive(rs[k], now))
      <==> 0 <= r < |rs| && IsLive(rs[r], now)
  {
    var r := Search(cmp, rs, ip, 0, |rs|, -1);
    SearchIsSound(cmp, rs, ip);
    forall k | 0 <= k < |rs| && InRange(cmp, rs[k], ip) ensures k == r {
      SearchIsComplete(cmp, rs, ip, k);
    }
  }

  predicate IsLiveSingle(i: IPItem, ip: IP, now: int)
  {
    IsSingle(i) && i.ipFrom == ip && IsLive(i, now)
  }

  class IPList {
    const cmp: Compare
    var isDeleted: bool
    var itemsMap: map<nat, IPItem>
    var sortedRangeItems: seq<IPItem>
    var ipMap: map<IP, IPItem>
    var bufferItemsMap: map<nat, IPItem>
    var allItemsMap: map<nat, IPItem>

    ghost function Content(): Abstract
      reads this`itemsMap, this`bufferItemsMap
    {
      Abstract(itemsMap, bufferItemsMap)
    }

    ghost predicate Consistent()
      reads this`itemsMap, this`bufferItemsMap, this`sortedRangeItems, this`ipMap, this`allItemsMap
    {
      InStep(cmp, itemsMap, sortedRangeItems, ipMap, allItemsMap, bufferItemsMap)
    }

    ghost predicate Valid()
      reads this`itemsMap, this`bufferItemsMap, this`sortedRangeItems, this`ipMap, this`allItemsMap
    {
      TotalOrder(cmp) && Consistent() && Sorted(cmp, sortedRangeItems)
    }

    /** A lookup of the address of any single item finds that item. */
    ghost predicate Owns()
      reads this`itemsMap, this`ipMap
    {
      OwnsAddress(ipMap, itemsMap)
    }

    constructor (cmp: Compare)
      requires TotalOrder(cmp)
      ensures Valid() && Owns() && this.cmp == cmp && !isDeleted && Content() == Abstract(map[], map[])
    {
      this.cmp, isDeleted := cmp, false;
      itemsMap, sortedRangeItems, ipMap, bufferItemsMap, allItemsMap := map[], [], map[], map[], map[];
    }

    method DeleteItem(itemId: nat)
      requires Consistent()
      modifies this`itemsMap, this`bufferItemsMap, this`sortedRangeItems, this`ipMap, this`allItemsMap
      ensures Consistent() && Content() == Deleted(old(Content()), itemId)
      ensures old(Sorted(cmp, sortedRangeItems)) ==> Sorted(cmp, sortedRangeItems)
      ensures ipMap == WithoutId(old(ipMap), itemId)
    {
      ghost var items, all, buffer := itemsMap, allItemsMap, bufferItemsMap;
      bufferItemsMap := bufferItemsMap - {itemId};
      if itemId in allItemsMap {
        allItemsMap := allItemsMap - {itemId};
      }
      assert allItemsMap == all - {itemId};
      if itemId in itemsMap {
        var oldItem := itemsMap[itemId];
        RemoveSingle(itemId, oldItem);
        RemoveRange(itemId, oldItem);
        itemsMap := itemsMap - {itemId};
      } else {
        NoSuchItem(ipMap, itemsMap, itemId);
      }
      InStepWithout(cmp, items, sortedRangeItems, ipMap, all, buffer, itemId);
    }

    method RemoveSingle(itemId: nat, oldItem: IPItem)
      requires HoldsSingles(ipMap, itemsMap) && itemId in itemsMap && itemsMap[itemId] == oldItem
      modifies this`ipMap
      ensures HoldsSingles(ipMap, itemsMap - {itemId}) && ipMap == WithoutId(old(ipMap), itemId)
    {
      SinglesGone(ipMap, itemsMap, itemId);
      if oldItem.ipTo == [] {
        var ip := oldItem.ipFrom;
        if ip in ipMap && ipMap[ip].id == itemId {
          ipMap := ipMap - {ip};
        }
      }
    }

    method RemoveRange(itemId: nat, oldItem: IPItem)
      requires HoldsRanges(sortedRangeItems, itemsMap) && OwnIds(itemsMap)
      requires itemId in itemsMap && itemsMap[itemId] == oldItem
      modifies this`sortedRangeItems
      ensures HoldsRanges(sortedRangeItems, itemsMap - {itemId})
      ensures old(Sorted(cmp, sortedRangeItems)) ==> Sorted(cmp, sortedRangeItems)
    {
      if oldItem.ipTo == [] {
        OtherGone(sortedRangeItems, itemsMap, itemId);
        return;
      }
      var index := 0;
      while index < |sortedRangeItems| && sortedRangeItems[index].id != itemId
        invariant 0 <= index <= |sortedRangeItems|
        invariant forall k :: 0 <= k < index ==> sortedRangeItems[k].id != itemId
      {
        index := index + 1;
      }
      if index < |sortedRangeItems| {
        RangeGone(sortedRangeItems, itemsMap, index);
        if Sorted(cmp, sortedRangeItems) {
          SortedWithout(cmp, sortedRangeItems, index);
        }
        sortedRangeItems := Without(sortedRangeItems, index);
      } else {
        OtherGone(sortedRangeItems, itemsMap, itemId);
      }
    }

    /** addItem without its sorting; whether the ranges now need it. */
    method PlaceItem(item: IPItem, now: int) returns (shouldSort: bool)
      requires TotalOrder(cmp) && Consistent()
      modifies this`itemsMap, this`bufferItemsMap, this`sortedRangeItems, this`ipMap, this`allItemsMap
      ensures Consistent() && Content() == AddedUnsorted(cmp, old(Content()), item, now)
      ensures shouldSort <==> Accepted(cmp, item, now).Some? && IsRange(Accepted(cmp, item, now).value)
      ensures !shouldSort && old(Sorted(cmp, sortedRangeItems)) ==> Sorted(cmp, sortedRangeItems)
      ensures ipMap == match Accepted(cmp, item, now)
                       case None => old(ipMap)
                       case Some(i) => Placed(old(ipMap), i)
    {
      var accepted := Normalise(item, now);
      if accepted == None {
        return false;
      }
      AcceptedIsNormal(cmp, item, now);
      var i := accepted.value;
      PutAfterDelete(itemsMap, i);
      MakeRoom(i.id);
      shouldSort := PutNew(i);
    }

    /** An item that is already in the list is deleted, from the buffer too; else the buffer is left alone. */
    method MakeRoom(id: nat)
      requires Consistent()
      modifies this`itemsMap, this`bufferItemsMap, this`sortedRangeItems, this`ipMap, this`allItemsMap
      ensures Consistent() && id !in itemsMap && itemsMap == old(itemsMap) - {id} && ipMap == WithoutId(old(ipMap), id)
      ensures bufferItemsMap == if id in old(itemsMap) then old(bufferItemsMap) - {id} else old(bufferItemsMap)
      ensures old(Sorted(cmp, sortedRangeItems)) ==> Sorted(cmp, sortedRangeItems)
    {
      if id in itemsMap {
        DeleteItem(id);
      } else {
        NoSuchItem(ipMap, itemsMap, id);
      }
    }

    method Normalise(item: IPItem, now: int) returns (accepted: Option<IPItem>)
      requires TotalOrder(cmp)
      ensures accepted == Accepted(cmp, item, now)
    {
      if item.expiredAt > 0 && item.expiredAt < now {
        return None;
      }
      var i := item;
      if cmp(i.ipFrom, i.ipTo) == 0 {
        i := i.(ipTo := []);
      }
      if i.ipFrom == [] && i.ipTo == [] {
        if i.kind != ALL {
          return None;
        }
      } else if i.ipTo != [] {
        if cmp(i.ipFrom, i.ipTo) > 0 {
          i := i.(ipFrom := i.ipTo, ipTo := i.ipFrom);
        } else if i.ipFrom == [] {
          i := i.(ipFrom := i.ipTo, ipTo := []);
        }
      }
      return Some(i);
    }

    method PutNew(i: IPItem) returns (shouldSort: bool)
      requires TotalOrder(cmp) && Consistent() && IsNormal(cmp, i) && i.id !in itemsMap
      modifies this`itemsMap, this`sortedRangeItems, this`ipMap, this`allItemsMap
      ensures Consistent() && itemsMap == old(itemsMap)[i.id := i] && ipMap == PlacedNew(old(ipMap), i)
      ensures shouldSort == IsRange(i)
      ensures !shouldSort ==> sortedRangeItems == old(sortedRangeItems)
    {
      AllPlaced(itemsMap, i);
      SinglesPlaced(ipMap, itemsMap, i);
      if IsRange(i) {
        RangeCome(sortedRangeItems, itemsMap, i);
      } else {
        OtherCome(sortedRangeItems, itemsMap, i);
      }
      shouldSort := false;
      itemsMap := itemsMap[i.id := i];
      if i.kind == ALL {
        allItemsMap := allItemsMap[i.id := i];
      } else if i.ipFrom != [] {
        if i.ipTo != [] {
          sortedRangeItems := sortedRangeItems + [i];
          shouldSort := true;
        } else {
          ipMap := ipMap[i.ipFrom := i];
        }
      }
    }

    /** The buffer is walked in any order. */
    method TakeInBuffer(now: int)
      requires TotalOrder(cmp) && Consistent()
      modifies this`itemsMap, this`bufferItemsMap, this`sortedRangeItems, this`ipMap, this`allItemsMap
      ensures Consistent() && Content() == Flushed(cmp, old(Content()), now)
      ensures old(Owns()) ==> (Owns() <==> NoSharing(itemsMap))
    {
      TakeAll(Content(), now);
      bufferItemsMap := map[];
      StillOwned();
    }

    method TakeAll(ghost before: Abstract, now: int)
      requires TotalOrder(cmp) && Consistent() && before == Content()
      modifies this`itemsMap, this`bufferItemsMap, this`sortedRangeItems, this`ipMap, this`allItemsMap
      ensures Consistent() && itemsMap == Merged(cmp, before, before.buffer.Keys, now)
      ensures old(Owns()) && NoSharing(itemsMap) ==> Owns()
    {
      NothingDone(cmp, before, now);
      var todo := bufferItemsMap.Keys;
      assert before.buffer.Keys - todo == {};
      while todo != {}
        invariant Consistent() && InFlush(before, todo, now)
        invariant old(Owns()) ==> MayOwn(before, todo, now)
        decreases todo
      {
        var id :| id in todo;
        TakeIn(id, before, todo, now);
        todo := todo - {id};
      }
      assert before.buffer.Keys - todo == before.buffer.Keys;
    }

    /** All but the buffered items still to do have been added, and those are still in the buffer. */
    ghost predicate InFlush(before: Abstract, todo: set<nat>, now: int)
      reads this`itemsMap, this`bufferItemsMap
    {
      && BufferOk(before.buffer)
      && itemsMap == Merged(cmp, before, before.buffer.Keys - todo, now)
      && forall id :: id in todo ==> id in bufferItemsMap && id in before.buffer && bufferItemsMap[id] == before.buffer[id]
    }

    /** If in the end no address is shared, all are owned as far as they can be by now. */
    ghost predicate MayOwn(before: Abstract, todo: set<nat>, now: int)
      reads this`itemsMap, this`ipMap
    {
      NoSharing(Merged(cmp, before, before.buffer.Keys, now)) ==> OwnsMeanwhile(cmp, before, todo, now, ipMap, itemsMap)
    }

    method TakeIn(id: nat, ghost before: Abstract, ghost todo: set<nat>, now: int)
      requires TotalOrder(cmp) && Consistent() && InFlush(before, todo, now) && id in todo
      modifies this`itemsMap, this`bufferItemsMap, this`sortedRangeItems, this`ipMap, this`allItemsMap
      ensures Consistent() && InFlush(before, todo - {id}, now)
      ensures old(MayOwn(before, todo, now)) ==> MayOwn(before, todo - {id}, now)
    {
      FlushOneMore(cmp, before, before.buffer.Keys - todo, id, now, Content());
      assert before.buffer.Keys - todo + {id} == before.buffer.Keys - (todo - {id});
      var item := bufferItemsMap[id];
      ghost var ips, items := ipMap, itemsMap;
      var _ := PlaceItem(item, now);
      TakenOwned(before, todo, id, now, ips, items);
    }

    lemma TakenOwned(before: Abstract, todo: set<nat>, id: nat, now: int, ips: map<IP, IPItem>, items: map<nat, IPItem>)
      requires TotalOrder(cmp) && BufferOk(before.buffer) && id in todo && todo <= before.buffer.Keys && OwnIds(items)
      requires items == Merged(cmp, before, before.buffer.Keys - todo, now)
      requires itemsMap == AddedUnsorted(cmp, Abstract(items, map[]), before.buffer[id], now).items
      requires ipMap == match Accepted(cmp, before.buffer[id], now)
                        case None => ips
                        case Some(i) => Placed(ips, i)
      ensures (NoSharing(Merged(cmp, before, before.buffer.Keys, now)) ==> OwnsMeanwhile(cmp, before, todo, now, ips, items))
        ==> MayOwn(before, todo - {id}, now)
    {
      if OwnsMeanwhile(cmp, before, todo, now, ips, items) && NoSharing(Merged(cmp, before, before.buffer.Keys, now)) {
        if Accepted(cmp, before.buffer[id], now).Some? {
          AcceptedIsNormal(cmp, before.buffer[id], now);
          MeanwhileOwned(cmp, before, todo, id, now, ips, items, Accepted(cmp, before.buffer[id], now).value);
        }
      }
    }

    method SortRangeItems(force: bool, now: int)
      requires TotalOrder(cmp) && Consistent() && (force || Sorted(cmp, sortedRangeItems))
      modifies this`itemsMap, this`bufferItemsMap, this`sortedRangeItems, this`ipMap, this`allItemsMap
      ensures Valid() && Content() == Flushed(cmp, old(Content()), now)
      ensures old(Owns()) ==> (Owns() <==> NoSharing(itemsMap))
    {
      var mustSort := force;
      if bufferItemsMap != map[] {
        TakeInBuffer(now);
        mustSort := true;
      } else {
        NothingToFlush(cmp, Content(), now);
        if Owns() {
          OwnersDoNotShare(ipMap, itemsMap);
        }
      }
      if mustSort {
        var sorted := SortSlice(cmp, sortedRangeItems);
        PermutationHoldsRanges(sortedRangeItems, sorted, itemsMap);
        sortedRangeItems := sorted;
      }
    }

    // ---------- the list's operations ----------

    method AddItem(item: IPItem, now: int)
      requires Valid()
      modifies this`itemsMap, this`bufferItemsMap, this`sortedRangeItems, this`ipMap, this`allItemsMap
      ensures Valid() && Content() == Added(cmp, old(Content()), item, now)
      ensures var i := Accepted(cmp, item, now);
        i.Some? && !IsRange(i.value) ==> ipMap == Placed(old(ipMap), i.value)
      ensures old(Owns()) ==> (Owns() <==> NoSharing(itemsMap))
    {
      ghost var ips, items := ipMap, itemsMap;
      var shouldSort := PlaceItem(item, now);
      if OwnsAddress(ips, items) {
        AddedOwned(item, now, ips, items);
      }
      if shouldSort {
        SortRangeItems(true, now);
      }
    }

    lemma AddedOwned(item: IPItem, now: int, ips: map<IP, IPItem>, items: map<nat, IPItem>)
      requires TotalOrder(cmp) && OwnIds(items) && HoldsSingles(ips, items) && OwnsAddress(ips, items)
      requires itemsMap == AddedUnsorted(cmp, Abstract(items, map[]), item, now).items
      requires ipMap == match Accepted(cmp, item, now)
                        case None => ips
                        case Some(i) => Placed(ips, i)
      ensures Owns() <==> NoSharing(itemsMap)
      ensures Accepted(cmp, item, now).Some? && IsRange(Accepted(cmp, item, now).value) ==> Owns()
    {
      if Accepted(cmp, item, now).Some? {
        PlacingOwned(ips, items, Accepted(cmp, item, now).value);
      } else {
        OwnersDoNotShare(ips, items);
      }
    }

    method Add(item: IPItem, now: int)
      requires Valid()
      modifies this`itemsMap, this`bufferItemsMap, this`sortedRangeItems, this`ipMap, this`allItemsMap
      ensures Valid() && Content() == if isDeleted then old(Content()) else Apply(cmp, old(Content()), Operation.Add(item, now))
      ensures var i := Accepted(cmp, item, now);
        !isDeleted && i.Some? && !IsRange(i.value) ==> ipMap == Placed(old(ipMap), i.value)
      ensures old(Owns()) ==> (Owns() <==> NoSharing(itemsMap))
    {
      if isDeleted {
        StillOwned();
        return;
      }
      AddItem(item, now);
    }

    method AddDelay(item: IPItem, now: int)
      requires Valid()
      modifies this`itemsMap, this`bufferItemsMap, this`sortedRangeItems, this`ipMap, this`allItemsMap
      ensures Valid()
      ensures Content() == if isDeleted then old(Content()) else Apply(cmp, old(Content()), Operation.AddDelay(item, now))
      ensures old(Owns()) ==> (Owns() <==> NoSharing(itemsMap))
    {
      if isDeleted {
        StillOwned();
        return;
      }
      if item.ipTo != [] {
        StillOwned();
        bufferItemsMap := bufferItemsMap[item.id := item];
      } else {
        AddItem(item, now);
      }
    }

    method Sort(now: int)
      requires Valid()
      modifies this`itemsMap, this`bufferItemsMap, this`sortedRangeItems, this`ipMap, this`allItemsMap
      ensures Valid() && bufferItemsMap == map[] && Content() == Apply(cmp, old(Content()), Operation.Sort(now))
      ensures old(Owns()) ==> (Owns() <==> NoSharing(itemsMap))
    {
      SortRangeItems(false, now);
      if old(bufferItemsMap) == map[] {
        NothingToFlush(cmp, old(Content()), now);
      }
    }

    method Delete(itemId: nat)
      requires Valid()
      modifies this`itemsMap, this`bufferItemsMap, this`sortedRangeItems, this`ipMap, this`allItemsMap
      ensures Valid() && Content() == Apply(cmp, old(Content()), Operation.Delete(itemId))
      ensures ipMap == WithoutId(old(ipMap), itemId)
      ensures old(Owns()) ==> Owns()
    {
      if Owns() {
        DeleteKeepsOwners(ipMap, itemsMap, itemId);
      }
      DeleteItem(itemId);
    }

    lemma StillOwned()
      requires Consistent()
      ensures Owns() ==> NoSharing(itemsMap)
    {
      if Owns() {
        OwnersDoNotShare(ipMap, itemsMap);
      }
    }

    method Perform(op: Operation)
      requires Valid() && !isDeleted
      modifies this`itemsMap, this`bufferItemsMap, this`sortedRangeItems, this`ipMap, this`allItemsMap
      ensures Valid() && Content() == Apply(cmp, old(Content()), op)
      ensures old(Owns()) && NoSharing(itemsMap) ==> Owns()
    {
      match op
      case Add(item, now) => Add(item, now);
      case AddDelay(item, now) => AddDelay(item, now);
      case Sort(now) => Sort(now);
      case Delete(id) => Delete(id);
    }

    /** Any run of operations: as long as no two items are on one address, every address keeps its owner. */
    method PerformAll(ops: seq<Operation>)
      requires Valid() && !isDeleted
      modifies this`itemsMap, this`bufferItemsMap, this`sortedRangeItems, this`ipMap, this`allItemsMap
      ensures Valid() && Content() == Run(cmp, old(Content()), ops)
      ensures old(Owns()) && (forall k :: 0 <= k <= |ops| ==> NoSharing(Run(cmp, old(Content()), ops[..k]).items)) ==> Owns()
    {
      ghost var before := Content();
      for k := 0 to |ops|
        invariant Valid() && Content() == Run(cmp, before, ops[..k])
        invariant old(Owns()) && (forall j :: 0 <= j <= k ==> NoSharing(Run(cmp, before, ops[..j]).items)) ==> Owns()
      {
        assert ops[..k + 1][..k] == ops[..k];
        Perform(ops[k]);
      }
      assert ops[..|ops|] == ops;
    }

    // ---------- lookups ----------

    /** What is found is a live item of the list that contains the address. Something is found exactly when IsFound says
        so, on every list; with no overlapping ranges that is when a live entry contains the address. */
    method LookupIP(ip: IP, now: int) returns (found: Option<IPItem>)
      requires Valid()
      ensures found.Some? ==>
        var i := found.value;
        && i.id in itemsMap && itemsMap[i.id] == i && (i.expiredAt == 0 || i.expiredAt > now)
        && ((IsSingle(i) && i.ipFrom == ip) || (IsRange(i) && cmp(i.ipFrom, ip) <= 0 && cmp(i.ipTo, ip) >= 0))
      ensures found.Some? <==> IsFound(cmp, sortedRangeItems, ipMap, ip, now)
      ensures NoOverlap(cmp, sortedRangeItems) ==>
        (found.Some? <==> IsMatched(cmp, sortedRangeItems, ipMap, ip, now))
      ensures Owns() ==> forall id :: id in itemsMap && IsLiveSingle(itemsMap[id], ip, now) ==> found == Some(itemsMap[id])
    {
      RangesHaveOrderedEnds(cmp, sortedRangeItems, itemsMap);
      FoundIsMatched(cmp, sortedRangeItems, ipMap, ip, now);
      if ip in ipMap && (ipMap[ip].expiredAt == 0 || ipMap[ip].expiredAt > now) {
        return Some(ipMap[ip]);
      }
      var resultIndex := LookupRange(ip, now);
      if resultIndex >= 0 {
        return Some(sortedRangeItems[resultIndex]);
      }
      return None;
    }

    predicate Holds(r: IPItem, ip: IP, now: int)
    {
      InRange(cmp, r, ip) && IsLive(r, now)
    }

    method LookupRange(ip: IP, now: int) returns (index: int)
      requires Valid()
      ensures index == -1 || (0 <= index < |sortedRangeItems| && Holds(sortedRangeItems[index], ip, now))
      ensures index >= 0 <==> exists h :: IsLastHit(cmp, sortedRangeItems, ip, h) && IsLive(sortedRangeItems[h], now)
    {
      RangesHaveOrderedEnds(cmp, sortedRangeItems, itemsMap);
      SearchIsSound(cmp, sortedRangeItems, ip);
      SearchApplies(cmp, sortedRangeItems, ip);
      SearchIsExact(cmp, sortedRangeItems, ip);
      if |sortedRangeItems| == 0 {
        return -1;
      }
      var count := |sortedRangeItems|;
      index := SearchRanges(cmp, sortedRangeItems, ip);
      if index < 0 || index >= count {
        return -1;
      }
      var item := sortedRangeItems[index];
      if item.expiredAt == 0 || item.expiredAt > now {
        return index;
      }
      return -1;
    }

    predicate Blocks(i: IPItem, ip: IP, now: int)
    {
      i.kind == ALL || (IsLive(i, now) && (i.ipFrom == ip || InRange(cmp, i, ip)))
    }

    /** A list with an item for all addresses contains every address; expiry of that item is not looked at. */
    method Contains(ip: IP, now: int) returns (yes: bool)
      requires Valid()
      ensures isDeleted ==> !yes
      ensures !isDeleted && (exists id :: id in itemsMap && itemsMap[id].kind == ALL) ==> yes
      ensures !isDeleted && (forall id :: id in itemsMap ==> itemsMap[id].kind != ALL) ==>
        (yes <==> IsFound(cmp, sortedRangeItems, ipMap, ip, now))
      ensures yes ==> exists id :: id in itemsMap && Blocks(itemsMap[id], ip, now)
    {
      if isDeleted {
        return false;
      }
      if |allItemsMap| > 0 {
        var id :| id in allItemsMap;
        return true;
      }
      assert forall id :: id in itemsMap && itemsMap[id].kind == ALL ==> id in AllItems(itemsMap);
      var found := LookupIP(ip, now);
      return found.Some?;
    }
  }

  /** A range that is added to a list is found for every address between its ends, in whichever order they come, as long
      as it is live and no ranges of the list overlap. */
  method AddThenLookup(list: IPList, item: IPItem, now: int, ip: IP, later: int) returns (found: Option<IPItem>)
    requires list.Valid() && !list.isDeleted && (item.id in list.itemsMap || item.id !in list.bufferItemsMap)
    requires item.kind != "all" && item.ipFrom != [] && item.ipTo != [] && item.ipFrom != item.ipTo
    requires !(0 < item.expiredAt < now) && (item.expiredAt == 0 || later < item.expiredAt)
    modifies list
    ensures list.Valid()
    ensures NoOverlap(list.cmp, list.sortedRangeItems) && list.cmp(item.ipFrom, ip) <= 0 && list.cmp(ip, item.ipTo) <= 0 ==>
      found.Some?
    ensures NoOverlap(list.cmp, list.sortedRangeItems) && list.cmp(item.ipTo, ip) <= 0 && list.cmp(ip, item.ipFrom) <= 0 ==>
      found.Some?
  {
    ghost var before := list.Content();
    BothEndsAreKept(list.cmp, item, now, ip);
    AcceptedIsNormal(list.cmp, item, now);
    AddedIsListed(list.cmp, before, item, now);
    list.Add(item, now);
    RangeIsMatched(list, item.id, ip, later);
    found := list.LookupIP(ip, later);
  }

  lemma RangeIsMatched(list: IPList, id: nat, ip: IP, now: int)
    requires list.Valid() && id in list.itemsMap && IsRange(list.itemsMap[id])
    ensures InRange(list.cmp, list.itemsMap[id], ip) && IsLive(list.itemsMap[id], now) ==>
      IsMatched(list.cmp, list.sortedRangeItems, list.ipMap, ip, now)
  {
    var k :| 0 <= k < |list.sortedRangeItems| && list.sortedRangeItems[k] == list.itemsMap[id];
  }

  /** The same on a list: after adding two items of one address and deleting the second, the first is still an item of the
      list, but a lookup of the address does not see it. */
  method LoseSharedAddress(list: IPList, first: IPItem, second: IPItem, now: int)
    requires list.Valid() && !list.isDeleted && first.id != second.id
    requires IsSingle(first) && IsSingle(second) && first.ipFrom == second.ipFrom
    requires Accepted(list.cmp, first, now) == Some(first) && Accepted(list.cmp, second, now) == Some(second)
    modifies list
    ensures list.Valid() && first.id in list.itemsMap && list.itemsMap[first.id] == first
    ensures first.ipFrom !in list.ipMap
  {
    AddBoth(list, first, second, now);
    list.Delete(second.id);
  }

  method AddBoth(list: IPList, first: IPItem, second: IPItem, now: int)
    requires list.Valid() && !list.isDeleted && first.id != second.id
    requires IsSingle(first) && IsSingle(second) && first.ipFrom == second.ipFrom
    requires Accepted(list.cmp, first, now) == Some(first) && Accepted(list.cmp, second, now) == Some(second)
    modifies list
    ensures list.Valid() && first.id in list.itemsMap && list.itemsMap[first.id] == first
    ensures first.ipFrom in list.ipMap && list.ipMap[first.ipFrom] == second
  {
    list.Add(first, now);
    AddOther(list, first, second, now);
  }

  method AddOther(list: IPList, first: IPItem, second: IPItem, now: int)
    requires list.Valid() && !list.isDeleted && first.id != second.id && IsSingle(second)
    requires Accepted(list.cmp, second, now) == Some(second)
    requires first.id in list.itemsMap && list.itemsMap[first.id] == first
    modifies list
    ensures list.Valid() && first.id in list.itemsMap && list.itemsMap[first.id] == first
    ensures second.ipFrom in list.ipMap && list.ipMap[second.ipFrom] == second
  {
    list.Add(second, now);
  }
}
