/** Lists of addresses and address ranges (internal/iplibrary/ip_list.go). Addresses are byte strings, the empty one
    standing for none; the order of addresses is a parameter, as CompareBytes is not part of this model. */
module IPLists {
  import opened Bytes
  import opened Wrappers

  type IP = ByteString

  type Compare = (IP, IP) -> int

  ghost predicate TotalOrder(cmp: Compare)
  {
    && (forall a, b :: cmp(a, b) == 0 <==> a == b)
    && (forall a, b :: cmp(a, b) < 0 <==> cmp(b, a) > 0)
    && (forall a, b, c {:trigger cmp(a, b), cmp(b, c)} :: cmp(a, b) <= 0 && cmp(b, c) <= 0 ==> cmp(a, c) <= 0)
  }

  const ALL := "all"

  datatype IPItem = IPItem(kind: string, id: nat, ipFrom: IP, ipTo: IP, expiredAt: int)

  predicate IsRange(i: IPItem) { i.kind != ALL && i.ipTo != [] }

  predicate IsSingle(i: IPItem) { i.kind != ALL && i.ipTo == [] && i.ipFrom != [] }

  predicate IsLive(i: IPItem, now: int) { i.expiredAt == 0 || i.expiredAt > now }

  /** A range contains the addresses between its ends, both included. */
  predicate InRange(cmp: Compare, r: IPItem, ip: IP)
  {
    cmp(r.ipFrom, ip) <= 0 && cmp(r.ipTo, ip) >= 0
  }

  // ---------- what addItem makes of an item ----------

  /** Nothing for an expired or empty item; otherwise the item with its ends in order. */
  function Accepted(cmp: Compare, item: IPItem, now: int): Option<IPItem>
  {
    if item.expiredAt > 0 && item.expiredAt < now then None
    else
      var i := if cmp(item.ipFrom, item.ipTo) == 0 then item.(ipTo := []) else item;
      if i.ipFrom == [] && i.ipTo == [] then (if i.kind != ALL then None else Some(i))
      else if i.ipTo != [] then
        if cmp(i.ipFrom, i.ipTo) > 0 then Some(i.(ipFrom := i.ipTo, ipTo := i.ipFrom))
        else if i.ipFrom == [] then Some(i.(ipFrom := i.ipTo, ipTo := []))
        else Some(i)
      else Some(i)
  }

  ghost predicate IsNormal(cmp: Compare, i: IPItem)
  {
    && (i.ipTo != [] ==> i.ipFrom != [] && cmp(i.ipFrom, i.ipTo) < 0)
    && (i.ipFrom == [] ==> i.kind == ALL)
  }

  lemma AcceptedIsNormal(cmp: Compare, item: IPItem, now: int)
    requires TotalOrder(cmp) && Accepted(cmp, item, now).Some?
    ensures var i := Accepted(cmp, item, now).value;
      IsNormal(cmp, i) && i.id == item.id && i.kind == item.kind && i.expiredAt == item.expiredAt
  {
  }

  /** Nothing is made of an item that expired before now, or that has no address and is not for all addresses. */
  lemma RefusedExactly(cmp: Compare, item: IPItem, now: int)
    requires TotalOrder(cmp)
    ensures Accepted(cmp, item, now).None? <==>
      0 < item.expiredAt < now || (item.ipFrom == [] && item.ipTo == [] && item.kind != "all")
  {
  }

  /** Of two different given ends every address between them is held, in whichever order they come, and no other. */
  lemma BothEndsAreKept(cmp: Compare, item: IPItem, now: int, ip: IP)
    requires TotalOrder(cmp) && item.ipFrom != [] && item.ipTo != [] && item.ipFrom != item.ipTo
    requires !(0 < item.expiredAt < now)
    ensures var i, isUp := Accepted(cmp, item, now), cmp(item.ipFrom, item.ipTo) < 0;
      && i.Some? && i.value.ipFrom != [] && i.value.ipTo != [] && (item.kind != "all" ==> IsRange(i.value))
      && (InRange(cmp, i.value, ip) <==>
            && cmp(if isUp then item.ipFrom else item.ipTo, ip) <= 0
            && cmp(ip, if isUp then item.ipTo else item.ipFrom) <= 0)
  {
    assert cmp(item.ipFrom, item.ipTo) != 0;
    var i := Accepted(cmp, item, now).value;
    assert cmp(i.ipTo, ip) >= 0 <==> cmp(ip, i.ipTo) <= 0 by {
      assert cmp(i.ipTo, ip) == 0 <==> cmp(ip, i.ipTo) == 0;
    }
  }

  /** One given end, or two equal ones, are that single address. */
  lemma OneEndIsSingle(cmp: Compare, item: IPItem, now: int, end: IP)
    requires TotalOrder(cmp) && end != [] && !(0 < item.expiredAt < now)
    requires (item.ipFrom, item.ipTo) in {(end, []), ([], end), (end, end)}
    ensures Accepted(cmp, item, now) == Some(item.(ipFrom := end, ipTo := []))
  {
    assert cmp(end, []) != 0 && cmp([], end) != 0;
  }

  // ---------- the operations, on items and buffer alone ----------

  /** The other three containers are determined by the items, up to which of several items owns an address. */
  datatype Abstract = Abstract(items: map<nat, IPItem>, buffer: map<nat, IPItem>)

  predicate Takes(cmp: Compare, buffer: map<nat, IPItem>, id: nat, now: int)
  {
    id in buffer && Accepted(cmp, buffer[id], now).Some?
  }

  /** The items after the buffered ones named in `done` have been added. */
  function Merged(cmp: Compare, a: Abstract, done: set<nat>, now: int): map<nat, IPItem>
  {
    map id | id in a.items.Keys + done && (id in a.items || Takes(cmp, a.buffer, id, now)) ::
      if id in done && Takes(cmp, a.buffer, id, now) then Accepted(cmp, a.buffer[id], now).value else a.items[id]
  }

  function Flushed(cmp: Compare, a: Abstract, now: int): Abstract
  {
    Abstract(Merged(cmp, a, a.buffer.Keys, now), map[])
  }

  function Deleted(a: Abstract, id: nat): Abstract
  {
    Abstract(a.items - {id}, a.buffer - {id})
  }

  /** Adding without sorting; an item that was there is deleted first, from the buffer too. */
  function AddedUnsorted(cmp: Compare, a: Abstract, item: IPItem, now: int): Abstract
  {
    match Accepted(cmp, item, now)
    case None => a
    case Some(i) => Abstract(a.items[i.id := i], if i.id in a.items then a.buffer - {i.id} else a.buffer)
  }

  /** Adding a range sorts at once, and sorting takes in the buffer. */
  function Added(cmp: Compare, a: Abstract, item: IPItem, now: int): Abstract
  {
    var b := AddedUnsorted(cmp, a, item, now);
    match Accepted(cmp, item, now)
    case Some(i) => if IsRange(i) then Flushed(cmp, b, now) else b
    case None => b
  }

  function AddedDelay(cmp: Compare, a: Abstract, item: IPItem, now: int): Abstract
  {
    if item.ipTo != [] then a.(buffer := a.buffer[item.id := item]) else Added(cmp, a, item, now)
  }

  datatype Operation =
    | Add(item: IPItem, now: int)
    | AddDelay(item: IPItem, now: int)
    | Sort(now: int)
    | Delete(id: nat)

  function Apply(cmp: Compare, a: Abstract, op: Operation): Abstract
  {
    match op
    case Add(item, now) => Added(cmp, a, item, now)
    case AddDelay(item, now) => AddedDelay(cmp, a, item, now)
    case Sort(now) => if a.buffer == map[] then a else Flushed(cmp, a, now)
    case Delete(id) => Deleted(a, id)
  }

  function Run(cmp: Compare, a: Abstract, ops: seq<Operation>): Abstract
  {
    if ops == [] then a else Apply(cmp, Run(cmp, a, ops[..|ops| - 1]), ops[|ops| - 1])
  }

  ghost predicate Mentions(op: Operation, id: nat)
  {
    (op.Add? || op.AddDelay?) && op.item.id == id
  }

  predicate BufferOk(buffer: map<nat, IPItem>)
  {
    forall id :: id in buffer ==> buffer[id].id == id && buffer[id].ipTo != []
  }

  ghost predicate Away(a: Abstract, id: nat)
  {
    id !in a.items && id !in a.buffer && BufferOk(a.buffer)
  }

  lemma StepStaysAway(cmp: Compare, a: Abstract, id: nat, op: Operation)
    requires TotalOrder(cmp) && Away(a, id) && !Mentions(op, id)
    ensures Away(Apply(cmp, a, op), id)
  {
    if (op.Add? || op.AddDelay?) && Accepted(cmp, op.item, op.now).Some? {
      AcceptedIsNormal(cmp, op.item, op.now);
    }
  }

  /** A deleted id stays away until it is added again, whatever happens to other ids, at any time and in any order. */
  lemma {:induction false} DeletedStaysAway(cmp: Compare, a: Abstract, id: nat, ops: seq<Operation>)
    requires TotalOrder(cmp) && BufferOk(a.buffer)
    requires forall k :: 0 <= k < |ops| ==> !Mentions(ops[k], id)
    ensures Away(Run(cmp, Deleted(a, id), ops), id)
  {
    if ops != [] {
      var op, b := ops[|ops| - 1], Run(cmp, Deleted(a, id), ops[..|ops| - 1]);
      DeletedStaysAway(cmp, a, id, ops[..|ops| - 1]);
      assert !Mentions(op, id);
      StepStaysAway(cmp, b, id, op);
    }
  }

  /** An item that is added is listed as it was accepted, unless a range of its id waits in the buffer. */
  lemma AddedIsListed(cmp: Compare, a: Abstract, item: IPItem, now: int)
    requires TotalOrder(cmp) && BufferOk(a.buffer) && Accepted(cmp, item, now).Some?
    requires item.id in a.items || item.id !in a.buffer
    ensures var b := Apply(cmp, a, Operation.Add(item, now));
      item.id in b.items && b.items[item.id] == Accepted(cmp, item, now).value
  {
    AcceptedIsNormal(cmp, item, now);
  }

  /** A buffered range is listed after sorting. */
  lemma SortedIsListed(cmp: Compare, a: Abstract, id: nat, now: int)
    requires id in a.buffer && Accepted(cmp, a.buffer[id], now).Some?
    ensures var b := Apply(cmp, a, Operation.Sort(now));
      id in b.items && b.items[id] == Accepted(cmp, a.buffer[id], now).value
  {
  }

  /** An operation leaves the items of all ids alone that it does not name and that do not wait in the buffer. */
  lemma OthersAreKept(cmp: Compare, a: Abstract, op: Operation, id: nat)
    requires TotalOrder(cmp) && BufferOk(a.buffer) && id !in a.buffer
    requires match op case Add(i, _) => i.id != id case AddDelay(i, _) => i.id != id case Delete(j) => j != id case Sort(_) => true
    ensures var b := Apply(cmp, a, op); id !in b.buffer && (id in a.items <==> id in b.items)
    ensures id in a.items ==> Apply(cmp, a, op).items[id] == a.items[id]
  {
    if (op.Add? || op.AddDelay?) && Accepted(cmp, op.item, op.now).Some? {
      AcceptedIsNormal(cmp, op.item, op.now);
    }
  }

  /** A range that waits in the buffer and a later single item of the same id: after sorting, the later one is still
      there exactly when the id was in the list before, since only then does adding clear the buffer of it. */
  lemma LaterAddSurvivesSort(cmp: Compare, a: Abstract, range: IPItem, single: IPItem, now: int)
    requires TotalOrder(cmp) && range.id == single.id && range.ipTo != [] && single.ipTo == []
    requires Accepted(cmp, range, now).Some? && IsRange(Accepted(cmp, range, now).value)
    requires Accepted(cmp, single, now).Some?
    ensures var b := Flushed(cmp, AddedDelay(cmp, AddedDelay(cmp, a, range, now), single, now), now);
      && single.id in b.items
      && b.items[single.id] == Accepted(cmp, if single.id in a.items then single else range, now).value
      && (b.items[single.id] == Accepted(cmp, single, now).value <==> single.id in a.items)
  {
    AcceptedIsNormal(cmp, range, now);
    AcceptedIsNormal(cmp, single, now);
  }

  // ---------- the ordered ranges ----------

  predicate Before(cmp: Compare, a: IPItem, b: IPItem)
  {
    if cmp(a.ipFrom, b.ipFrom) == 0 then cmp(a.ipTo, b.ipTo) <= 0 else cmp(a.ipFrom, b.ipFrom) < 0
  }

  ghost predicate Sorted(cmp: Compare, rs: seq<IPItem>)
  {
    forall i, j :: 0 <= i < j < |rs| ==> Before(cmp, rs[i], rs[j])
  }

  ghost predicate DistinctIds(rs: seq<IPItem>)
  {
    forall i, j :: 0 <= i < j < |rs| ==> rs[i].id != rs[j].id
  }

  /** The list holds exactly the range items, each once. */
  ghost predicate HoldsRanges(rs: seq<IPItem>, items: map<nat, IPItem>)
  {
    && DistinctIds(rs)
    && (forall i :: 0 <= i < |rs| ==> rs[i].id in items && items[rs[i].id] == rs[i] && IsRange(rs[i]))
    && (forall id :: id in items && IsRange(items[id]) ==> items[id] in rs)
  }

  /** Every entry is the item under its id, and is stored under its own address. */
  ghost predicate HoldsSingles(ips: map<IP, IPItem>, items: map<nat, IPItem>)
  {
    forall ip :: ip in ips ==>
      IsSingle(ips[ip]) && ips[ip].ipFrom == ip && ips[ip].id in items && items[ips[ip].id] == ips[ip]
  }

  ghost predicate ItemsOk(cmp: Compare, items: map<nat, IPItem>)
  {
    forall id :: id in items ==> items[id].id == id && IsNormal(cmp, items[id])
  }

  function AllItems(items: map<nat, IPItem>): map<nat, IPItem>
  {
    map id | id in items && items[id].kind == ALL :: items[id]
  }

  // ---------- sort.Slice ----------

  function InsertSorted(cmp: Compare, rs: seq<IPItem>, x: IPItem): (r: seq<IPItem>)
    ensures multiset(r) == multiset(rs) + multiset{x}
  {
    if rs == [] then [x]
    else
      assert rs == [rs[0]] + rs[1..];
      if Before(cmp, x, rs[0]) then [x] + rs else [rs[0]] + InsertSorted(cmp, rs[1..], x)
  }

  lemma BeforeIsTotal(cmp: Compare, a: IPItem, b: IPItem)
    requires TotalOrder(cmp)
    ensures Before(cmp, a, b) || Before(cmp, b, a)
  {
  }

  lemma BeforeIsTransitive(cmp: Compare, a: IPItem, b: IPItem, c: IPItem)
    requires TotalOrder(cmp) && Before(cmp, a, b) && Before(cmp, b, c)
    ensures Before(cmp, a, c)
  {
    assert cmp(a.ipFrom, b.ipFrom) <= 0 && cmp(b.ipFrom, c.ipFrom) <= 0;
  }

  lemma SortedFrom(cmp: Compare, x: IPItem, rest: seq<IPItem>)
    requires Sorted(cmp, rest) && forall j :: 0 <= j < |rest| ==> Before(cmp, x, rest[j])
    ensures Sorted(cmp, [x] + rest)
  {
  }

  lemma {:induction false} InsertSortedIsSorted(cmp: Compare, rs: seq<IPItem>, x: IPItem)
    requires TotalOrder(cmp) && Sorted(cmp, rs)
    ensures Sorted(cmp, InsertSorted(cmp, rs, x))
  {
    if rs == [] {
    } else if Before(cmp, x, rs[0]) {
      forall j | 0 <= j < |rs| ensures Before(cmp, x, rs[j]) {
        if j > 0 {
          BeforeIsTransitive(cmp, x, rs[0], rs[j]);
        }
      }
      SortedFrom(cmp, x, rs);
    } else {
      InsertSortedIsSorted(cmp, rs[1..], x);
      BeforeIsTotal(cmp, x, rs[0]);
      var rest := InsertSorted(cmp, rs[1..], x);
      forall j | 0 <= j < |rest| ensures Before(cmp, rs[0], rest[j]) {
        assert rest[j] in multiset(rest);
        assert rest[j] == x || rest[j] in rs[1..];
      }
      SortedFrom(cmp, rs[0], rest);
    }
  }

  method SortSlice(cmp: Compare, rs: seq<IPItem>) returns (sorted: seq<IPItem>)
    requires TotalOrder(cmp)
    ensures Sorted(cmp, sorted) && multiset(sorted) == multiset(rs)
  {
    sorted := [];
    for k := 0 to |rs|
      invariant Sorted(cmp, sorted) && multiset(sorted) == multiset(rs[..k])
    {
      InsertSortedIsSorted(cmp, sorted, rs[k]);
      sorted := InsertSorted(cmp, sorted, rs[k]);
      assert rs[..k + 1] == rs[..k] + [rs[k]];
    }
    assert rs[..|rs|] == rs;
  }

  lemma PermutationHoldsRanges(rs: seq<IPItem>, sorted: seq<IPItem>, items: map<nat, IPItem>)
    requires HoldsRanges(rs, items) && multiset(sorted) == multiset(rs)
    ensures HoldsRanges(sorted, items)
  {
    forall i | 0 <= i < |sorted| ensures sorted[i] in rs {
      assert sorted[i] in multiset(sorted);
    }
    forall x | x in rs ensures x in sorted {
      assert x in multiset(rs);
    }
    forall i, j | 0 <= i < j < |sorted| ensures sorted[i].id != sorted[j].id {
      if sorted[i].id == sorted[j].id {
        assert sorted[i] == sorted[j];
        TwiceInMultiset(sorted, i, j);
        OnceInMultiset(rs, sorted[i]);
      }
    }
  }

  lemma TwiceInMultiset(s: seq<IPItem>, i: nat, j: nat)
    requires i < j < |s| && s[i] == s[j]
    ensures multiset(s)[s[i]] >= 2
  {
    assert s == s[..j] + [s[j]] + s[j + 1..];
    assert s[..j][i] == s[i] && s[i] in multiset(s[..j]);
  }

  lemma {:induction false} OnceInMultiset(s: seq<IPItem>, x: IPItem)
    requires DistinctIds(s)
    ensures multiset(s)[x] <= 1
  {
    if s != [] {
      var init, last := s[..|s| - 1], s[|s| - 1];
      OnceInMultiset(init, x);
      assert s == init + [last];
      if x == last {
        assert x !in init;
        assert x !in multiset(init);
      }
    }
  }

  // ---------- the binary search of lookupIP ----------

  ghost predicate NoOverlap(cmp: Compare, rs: seq<IPItem>)
  {
    forall i, j :: 0 <= i < j < |rs| ==> cmp(rs[i].ipTo, rs[j].ipFrom) < 0
  }

  ghost predicate AllRanges(cmp: Compare, rs: seq<IPItem>)
  {
    forall i :: 0 <= i < |rs| ==> cmp(rs[i].ipFrom, rs[i].ipTo) < 0
  }

  /** What the search predicate records for an entry that does not begin after the address. */
  predicate IsHit(cmp: Compare, r: IPItem, ip: IP)
  {
    cmp(r.ipFrom, ip) == 0 || cmp(r.ipTo, ip) >= 0
  }

  /** sort.Search over [low, high), with the index that its predicate assigns along the way; -1 for none. */
  function Search(cmp: Compare, rs: seq<IPItem>, ip: IP, low: nat, high: nat, result: int): int
    requires low <= high <= |rs|
    decreases high - low
  {
    if low == high then result
    else
      var h := (low + high) / 2;
      if cmp(rs[h].ipFrom, ip) > 0 then Search(cmp, rs, ip, low, h, result)
      else Search(cmp, rs, ip, h + 1, high, if IsHit(cmp, rs[h], ip) then h else result)
  }

  method SearchRanges(cmp: Compare, rs: seq<IPItem>, ip: IP) returns (resultIndex: int)
    ensures resultIndex == Search(cmp, rs, ip, 0, |rs|, -1)
  {
    resultIndex := -1;
    var i, j := 0, |rs|;
    while i < j
      invariant 0 <= i <= j <= |rs|
      invariant Search(cmp, rs, ip, i, j, resultIndex) == Search(cmp, rs, ip, 0, |rs|, -1)
    {
      var h := (i + j) / 2;
      var c := cmp(rs[h].ipFrom, ip);
      var isAfter := true;
      if c < 0 {
        if cmp(rs[h].ipTo, ip) >= 0 {
          resultIndex := h;
        }
        isAfter := false;
      } else if c == 0 {
        resultIndex := h;
        isAfter := false;
      }
      if !isAfter {
        i := h + 1;
      } else {
        j := h;
      }
    }
  }

  /** An entry that does not begin after the address is a hit exactly when it contains the address. */
  lemma HitIsInRange(cmp: Compare, r: IPItem, ip: IP)
    requires TotalOrder(cmp) && cmp(r.ipFrom, r.ipTo) < 0 && cmp(r.ipFrom, ip) <= 0
    ensures IsHit(cmp, r, ip) <==> InRange(cmp, r, ip)
  {
  }

  ghost predicate HitsContain(cmp: Compare, rs: seq<IPItem>, ip: IP)
  {
    forall k :: 0 <= k < |rs| && cmp(rs[k].ipFrom, ip) <= 0 ==> (IsHit(cmp, rs[k], ip) <==> InRange(cmp, rs[k], ip))
  }

  /** Even with overlaps, what is found contains the address. */
  lemma SearchIsSound(cmp: Compare, rs: seq<IPItem>, ip: IP)
    requires TotalOrder(cmp) && AllRanges(cmp, rs)
    ensures var r := Search(cmp, rs, ip, 0, |rs|, -1);
            r == -1 || (0 <= r < |rs| && InRange(cmp, rs[r], ip))
  {
    AllHitsContain(cmp, rs, ip);
    SearchStaysSound(cmp, rs, ip, 0, |rs|, -1);
  }

  lemma AllHitsContain(cmp: Compare, rs: seq<IPItem>, ip: IP)
    requires TotalOrder(cmp) && AllRanges(cmp, rs)
    ensures HitsContain(cmp, rs, ip)
  {
    forall k | 0 <= k < |rs| && cmp(rs[k].ipFrom, ip) <= 0
      ensures IsHit(cmp, rs[k], ip) <==> InRange(cmp, rs[k], ip)
    {
      HitIsInRange(cmp, rs[k], ip);
    }
  }

  lemma {:induction false} SearchStaysSound(cmp: Compare, rs: seq<IPItem>, ip: IP, low: nat, high: nat, result: int)
    requires HitsContain(cmp, rs, ip) && low <= high <= |rs|
    requires result == -1 || (0 <= result < |rs| && InRange(cmp, rs[result], ip))
    ensures var r := Search(cmp, rs, ip, low, high, result);
            r == -1 || (0 <= r < |rs| && InRange(cmp, rs[r], ip))
    decreases high - low
  {
    if low < high {
      var h := (low + high) / 2;
      if cmp(rs[h].ipFrom, ip) > 0 {
        SearchStaysSound(cmp, rs, ip, low, h, result);
      } else {
        SearchStaysSound(cmp, rs, ip, h + 1, high, if IsHit(cmp, rs[h], ip) then h else result);
      }
    }
  }

  /** Position p separates the entries that begin at or before the address from those that begin after it. */
  ghost predicate Splits(cmp: Compare, rs: seq<IPItem>, ip: IP, p: nat)
  {
    && p <= |rs|
    && (forall k :: 0 <= k < p ==> cmp(rs[k].ipFrom, ip) <= 0)
    && (forall k :: p <= k < |rs| ==> cmp(rs[k].ipFrom, ip) > 0)
  }

  /** The search ends at the split, and its last entry before the split is always looked at. */
  lemma {:induction false} SearchSeesLastCandidate(cmp: Compare, rs: seq<IPItem>, ip: IP, low: nat, high: nat, result: int,
      p: nat)
    requires Splits(cmp, rs, ip, p) && low <= p <= high <= |rs|
    requires low == p > 0 && IsHit(cmp, rs[p - 1], ip) ==> result == p - 1
    ensures p > 0 && IsHit(cmp, rs[p - 1], ip) ==> Search(cmp, rs, ip, low, high, result) == p - 1
    decreases high - low
  {
    if low < high {
      var h := (low + high) / 2;
      if cmp(rs[h].ipFrom, ip) > 0 {
        SearchSeesLastCandidate(cmp, rs, ip, low, h, result, p);
      } else {
        SearchSeesLastCandidate(cmp, rs, ip, h + 1, high, if IsHit(cmp, rs[h], ip) then h else result, p);
      }
    }
  }

  /** How many entries begin at or before the address, counted from the end. */
  function SplitOf(cmp: Compare, rs: seq<IPItem>, ip: IP): (p: nat)
    ensures p <= |rs|
  {
    if rs == [] || cmp(rs[|rs| - 1].ipFrom, ip) <= 0 then |rs| else SplitOf(cmp, rs[..|rs| - 1], ip)
  }

  lemma {:induction false} SplitOfSplits(cmp: Compare, rs: seq<IPItem>, ip: IP)
    requires TotalOrder(cmp) && Sorted(cmp, rs)
    ensures Splits(cmp, rs, ip, SplitOf(cmp, rs, ip))
  {
    if rs == [] || cmp(rs[|rs| - 1].ipFrom, ip) <= 0 {
      forall k | 0 <= k < |rs| ensures cmp(rs[k].ipFrom, ip) <= 0 {
        assert k < |rs| - 1 ==> Before(cmp, rs[k], rs[|rs| - 1]);
        assert cmp(rs[k].ipFrom, rs[|rs| - 1].ipFrom) <= 0;
      }
    } else {
      SplitOfSplits(cmp, rs[..|rs| - 1], ip);
      assert forall k :: 0 <= k < |rs| - 1 ==> rs[..|rs| - 1][k] == rs[k];
    }
  }

  /** Of ranges that do not overlap, only the last one that begins at or before an address can contain it. */
  lemma OnlyLastCandidate(cmp: Compare, rs: seq<IPItem>, ip: IP, p: nat, q: nat)
    requires TotalOrder(cmp) && NoOverlap(cmp, rs) && Splits(cmp, rs, ip, p)
    requires q < |rs| && InRange(cmp, rs[q], ip)
    ensures q == p - 1
  {
    assert q < p;
    if q < p - 1 {
      DisjointEnds(cmp, rs[q], rs[p - 1], ip);
    }
  }

  lemma DisjointEnds(cmp: Compare, a: IPItem, b: IPItem, ip: IP)
    requires TotalOrder(cmp) && cmp(a.ipTo, b.ipFrom) < 0 && cmp(b.ipFrom, ip) <= 0
    ensures cmp(a.ipTo, ip) < 0
  {
    assert cmp(a.ipTo, ip) <= 0;
  }

  /** Without overlaps the search finds a range exactly when some range contains the address, and then that one. */
  lemma SearchIsComplete(cmp: Compare, rs: seq<IPItem>, ip: IP, q: nat)
    requires TotalOrder(cmp) && Sorted(cmp, rs) && NoOverlap(cmp, rs) && AllRanges(cmp, rs)
    requires q < |rs| && InRange(cmp, rs[q], ip)
    ensures Search(cmp, rs, ip, 0, |rs|, -1) == q
  {
    var p := SplitOf(cmp, rs, ip);
    SplitOfSplits(cmp, rs, ip);
    OnlyLastCandidate(cmp, rs, ip, p, q);
    HitIsInRange(cmp, rs[q], ip);
    SearchFindsLast(cmp, rs, ip, p);
  }

  /** The entries before the split that the search looks at. They depend on the number of entries and the split alone. */
  function Probed(low: nat, high: nat, p: nat): (probed: set<nat>)
    requires low <= p <= high
    ensures forall h :: h in probed ==> low <= h < p
    decreases high - low
  {
    if low == high then {}
    else
      var h := (low + high) / 2;
      if h >= p then Probed(low, h, p) else {h} + Probed(h + 1, high, p)
  }

  /** The last of the entries looked at that contain the address. */
  ghost predicate IsLastHit(cmp: Compare, rs: seq<IPItem>, ip: IP, h: int)
  {
    var probed := Probed(0, |rs|, SplitOf(cmp, rs, ip));
    && h in probed && InRange(cmp, rs[h], ip)
    && forall j :: j in probed && InRange(cmp, rs[j], ip) ==> j <= h
  }

  /** Index r is the last hit, or -1 when nothing that is looked at contains the address. */
  ghost predicate EndsOnLastHit(cmp: Compare, rs: seq<IPItem>, ip: IP, r: int)
  {
    && (forall h :: IsLastHit(cmp, rs, ip, h) <==> h == r != -1)
    && (r == -1 <==> forall h :: h in Probed(0, |rs|, SplitOf(cmp, rs, ip)) ==> !InRange(cmp, rs[h], ip))
  }

  /** On every sorted list, overlaps or not (see SearchApplies), the search ends on the last entry it looks at that
      contains the address, and on none if there is no such entry. The last entry before the split is always looked at. */
  lemma SearchIsExact(cmp: Compare, rs: seq<IPItem>, ip: IP)
    requires HitsContain(cmp, rs, ip) && Splits(cmp, rs, ip, SplitOf(cmp, rs, ip))
    ensures EndsOnLastHit(cmp, rs, ip, Search(cmp, rs, ip, 0, |rs|, -1))
    ensures var p := SplitOf(cmp, rs, ip); p > 0 ==> p - 1 in Probed(0, |rs|, p)
  {
    ProbedDecide(cmp, rs, ip, 0, |rs|, -1, SplitOf(cmp, rs, ip));
    LastIsProbed(0, |rs|, SplitOf(cmp, rs, ip));
  }

  lemma SearchApplies(cmp: Compare, rs: seq<IPItem>, ip: IP)
    requires TotalOrder(cmp) && Sorted(cmp, rs) && AllRanges(cmp, rs)
    ensures HitsContain(cmp, rs, ip) && Splits(cmp, rs, ip, SplitOf(cmp, rs, ip))
  {
    SplitOfSplits(cmp, rs, ip);
    AllHitsContain(cmp, rs, ip);
  }

  lemma {:induction false} LastIsProbed(low: nat, high: nat, p: nat)
    requires low <= p <= high
    ensures low < p ==> p - 1 in Probed(low, high, p)
    decreases high - low
  {
    if low < high {
      var h := (low + high) / 2;
      if h >= p {
        LastIsProbed(low, h, p);
      } else {
        LastIsProbed(h + 1, high, p);
      }
    }
  }

  lemma {:induction false} ProbedDecide(cmp: Compare, rs: seq<IPItem>, ip: IP, low: nat, high: nat, result: int, p: nat)
    requires HitsContain(cmp, rs, ip) && Splits(cmp, rs, ip, p) && low <= p <= high <= |rs| && -1 <= result < low
    ensures var r := Search(cmp, rs, ip, low, high, result);
      var probed := Probed(low, high, p);
      || (r == result && forall h :: h in probed ==> !InRange(cmp, rs[h], ip))
      || (r in probed && InRange(cmp, rs[r], ip) && forall h :: h in probed && InRange(cmp, rs[h], ip) ==> h <= r)
    decreases high - low
  {
    if low < high {
      var h := (low + high) / 2;
      if h >= p {
        ProbedDecide(cmp, rs, ip, low, h, result, p);
      } else {
        ProbedDecide(cmp, rs, ip, h + 1, high, if IsHit(cmp, rs[h], ip) then h else result, p);
      }
    }
  }

  lemma SearchFindsLast(cmp: Compare, rs: seq<IPItem>, ip: IP, p: nat)
    requires Splits(cmp, rs, ip, p) && p > 0 && IsHit(cmp, rs[p - 1], ip)
    ensures Search(cmp, rs, ip, 0, |rs|, -1) == p - 1
  {
    SearchSeesLastCandidate(cmp, rs, ip, 0, |rs|, -1, p);
  }

  /** Overlapping ranges can hide each other: behind a later-beginning range that ends before the address, an earlier one
      that contains the address is never looked at. */
  lemma OverlapHidesRange(cmp: Compare, outer: IPItem, inner: IPItem, ip: IP)
    requires TotalOrder(cmp)
    requires cmp(outer.ipFrom, inner.ipFrom) < 0 && cmp(inner.ipFrom, inner.ipTo) < 0
    requires cmp(inner.ipTo, ip) < 0 && cmp(outer.ipTo, ip) >= 0
    ensures Sorted(cmp, [outer, inner]) && InRange(cmp, outer, ip)
    ensures Search(cmp, [outer, inner], ip, 0, 2, -1) == -1
  {
    var rs := [outer, inner];
    assert cmp(inner.ipFrom, ip) <= 0;
    HitIsInRange(cmp, inner, ip);
    assert Search(cmp, rs, ip, 0, 2, -1) == Search(cmp, rs, ip, 2, 2, -1);
  }
}
