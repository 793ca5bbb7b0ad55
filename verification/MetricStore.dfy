/** The three tables of a metrics task and the operations on them (internal/metrics/task_kv.go). */
module MetricStore {
  import opened Bytes
  import opened IndexedTables
  import opened MetricKeys
  import opened Sums

  datatype Stat = Stat(serverId: int, keys: seq<string>, hash: ByteString, value: int, time: ByteString)

  /** What UniqueKey hashes; the id of the metric item is the same for all stats of one task. */
  datatype Identity = Identity(serverId: int, keys: seq<string>, time: ByteString, version: nat)

  type Hasher = Identity -> ByteString

  /** Hashes are non-empty decimal numerals, and stats of different servers do not collide. */
  ghost predicate GoodHasher(h: Hasher)
  {
    && (forall i :: h(i) != [] && forall b :: b in h(i) ==> 48 <= b <= 57)
    && (forall i, j {:trigger h(i), h(j)} :: h(i) == h(j) ==> i.serverId == j.serverId)
  }

  function UniqueKey(h: Hasher, s: Stat, version: Version): ByteString
  {
    h(Identity(s.serverId, s.keys, s.time, version))
  }

  function ItemKey(h: Hasher, s: Stat, version: Version): ByteString
  {
    FullKey(s.time, version, UniqueKey(h, s, version))
  }

  /** items: full key to stat; values: value keys; sums: sum key to encoded (count, total). */
  datatype Store = Store(items: map<ByteString, Stat>, values: set<ByteString>, sums: map<ByteString, ByteString>)

  const EMPTY := Store(map[], {}, map[])

  // ---------- the agreement of the three tables ----------

  function VersionOf(k: ByteString): Version
  {
    var v := HeadOf(k).1;
    if v < 0x8000_0000 then v else 0
  }

  ghost predicate ItemOk(h: Hasher, k: ByteString, s: Stat)
  {
    && IsTime(s.time)
    && 0 <= s.serverId < TWO_TO_THE_63
    && 0 <= s.value < TWO_TO_THE_63
    && s.hash == UniqueKey(h, s, VersionOf(k))
    && k == FullKey(s.time, VersionOf(k), s.hash)
  }

  ghost predicate ItemsOk(h: Hasher, items: map<ByteString, Stat>)
  {
    forall k :: k in items ==> ItemOk(h, k, items[k])
  }

  function Clamp(n: int): Int63 { if 0 <= n < TWO_TO_THE_63 then n else 0 }

  function ValueKeyOf(k: ByteString, s: Stat): ByteString
  {
    ValueKey(s.time, VersionOf(k), Clamp(s.serverId), s.value, s.hash)
  }

  function SumKeyOf(k: ByteString, s: Stat): ByteString
  {
    SumKey(s.time, VersionOf(k), Clamp(s.serverId))
  }

  function ValueOf(s: Stat): int { s.value }

  /** One value key for each item, one sum row for each (time, version, server) with items, and nothing else. */
  ghost predicate Agree(h: Hasher, st: Store)
  {
    && ItemsOk(h, st.items)
    && TablesAgree(st.items, st.values, st.sums, ValueKeyOf, SumKeyOf, ValueOf, DecodeSumValue)
  }

  /** Different items have different value keys. */
  lemma ValueKeysDiffer(h: Hasher, k: ByteString, s: Stat, k': ByteString, s': Stat)
    requires GoodHasher(h) && ItemOk(h, k, s) && ItemOk(h, k', s')
    requires ValueKeyOf(k, s) == ValueKeyOf(k', s')
    ensures k == k'
  {
    ValueKeyRoundTrip(s.time, VersionOf(k), s.serverId, s.value, s.hash);
    ValueKeyRoundTrip(s'.time, VersionOf(k'), s'.serverId, s'.value, s'.hash);
  }

  // ---------- InsertStat ----------

  /** What the caller of InsertStat provides. */
  ghost predicate GoodStat(h: Hasher, s: Stat, version: Version)
  {
    && IsTime(s.time)
    && 0 <= s.serverId < TWO_TO_THE_63
    && 0 <= s.value < TWO_TO_THE_63
    && (s.hash == [] || s.hash == UniqueKey(h, s, version))
  }

  function OldValue(st: Store, k: ByteString): int
  {
    if k in st.items then st.items[k].value else 0
  }

  /** The stat that is stored: with its hash, and with the old value added. */
  function Merged(h: Hasher, st: Store, s: Stat, version: Version): Stat
  {
    s.(hash := if |s.hash| == 0 then UniqueKey(h, s, version) else s.hash,
       value := OldValue(st, ItemKey(h, s, version)) + s.value)
  }

  function EncodeValueKey(s: Stat, version: Version): ByteString
  {
    ValueKey(s.time, version, Clamp(s.serverId), s.value, s.hash)
  }

  function EncodeSumKey(s: Stat, version: Version): ByteString
  {
    SumKey(s.time, version, Clamp(s.serverId))
  }

  /** Both counters are uint64 and wrap around. */
  function BumpedSum(st: Store, r: ByteString, isNew: bool, newValue: int): ByteString
  {
    var sum := if r in st.sums then DecodeSumValue(st.sums[r]) else (0, 0);
    var bumped := Bumped(sum, isNew, newValue);
    EncodeSumValue(bumped.0, bumped.1)
  }

  function Inserted(h: Hasher, st: Store, s: Stat, version: Version): Store
  {
    var k, merged, r := ItemKey(h, s, version), Merged(h, st, s, version), EncodeSumKey(s, version);
    Store(st.items[k := merged],
          (if k in st.items then st.values - {EncodeValueKey(st.items[k], version)} else st.values)
          + {EncodeValueKey(merged, version)},
          st.sums[r := BumpedSum(st, r, k !in st.items, s.value)])
  }

  ghost predicate CanInsert(h: Hasher, st: Store, s: Stat, version: Version)
  {
    GoodStat(h, s, version) && OldValue(st, ItemKey(h, s, version)) + s.value < TWO_TO_THE_63
  }

  /** The old item under the key of a stat has the stat's time, version and server. */
  lemma OldItemFacts(h: Hasher, st: Store, s: Stat, version: Version)
    requires GoodHasher(h) && ItemsOk(h, st.items) && GoodStat(h, s, version)
    requires ItemKey(h, s, version) in st.items
    ensures var k := ItemKey(h, s, version);
      VersionOf(k) == version && st.items[k].time == s.time && st.items[k].serverId == s.serverId
  {
    var k := ItemKey(h, s, version);
    var o := st.items[k];
    HeadOfKey(s.time, version, UniqueKey(h, s, version));
    HeadOfKey(o.time, VersionOf(k), o.hash);
    assert k[|s.time| + 5..] == UniqueKey(h, s, version) && k[|s.time| + 5..] == o.hash;
  }

  lemma MergedIsOk(h: Hasher, st: Store, s: Stat, version: Version)
    requires GoodHasher(h) && ItemsOk(h, st.items) && CanInsert(h, st, s, version)
    ensures var k := ItemKey(h, s, version);
      VersionOf(k) == version && ItemOk(h, k, Merged(h, st, s, version))
  {
    var k := ItemKey(h, s, version);
    HeadOfKey(s.time, version, UniqueKey(h, s, version));
    if k in st.items {
      assert ItemOk(h, k, st.items[k]);
    }
  }

  lemma BumpedSumDecodes(st: Store, r: ByteString, isNew: bool, newValue: int)
    ensures DecodeSumValue(BumpedSum(st, r, isNew, newValue))
         == Bumped(if r in st.sums then DecodeSumValue(st.sums[r]) else (0, 0), isNew, newValue)
  {
    var bumped := Bumped(if r in st.sums then DecodeSumValue(st.sums[r]) else (0, 0), isNew, newValue);
    SumValueRoundTrip(bumped.0, bumped.1);
  }

  /** The keys that InsertStat writes are those of the old and the new item. */
  lemma InsertedShape(h: Hasher, st: Store, s: Stat, version: Version)
    requires GoodHasher(h) && ItemsOk(h, st.items) && CanInsert(h, st, s, version)
    ensures var k, merged := ItemKey(h, s, version), Merged(h, st, s, version);
      && EncodeSumKey(s, version) == SumKeyOf(k, merged)
      && EncodeValueKey(merged, version) == ValueKeyOf(k, merged)
      && Added(st.items, ValueOf, k, merged) == s.value
      && (k in st.items ==>
            && EncodeValueKey(st.items[k], version) == ValueKeyOf(k, st.items[k])
            && SumKeyOf(k, st.items[k]) == SumKeyOf(k, merged))
  {
    MergedIsOk(h, st, s, version);
    if ItemKey(h, s, version) in st.items {
      OldItemFacts(h, st, s, version);
    }
  }

  lemma IndexIsInjective(h: Hasher, items: map<ByteString, Stat>, k: ByteString)
    requires GoodHasher(h) && ItemsOk(h, items) && k in items
    ensures forall j :: j in items && j != k ==> ValueKeyOf(j, items[j]) != ValueKeyOf(k, items[k])
  {
    forall j | j in items && j != k ensures ValueKeyOf(j, items[j]) != ValueKeyOf(k, items[k]) {
      if ValueKeyOf(j, items[j]) == ValueKeyOf(k, items[k]) {
        ValueKeysDiffer(h, j, items[j], k, items[k]);
      }
    }
  }

  /** Delete the old value key, insert the new one, bump the sum: the tables still agree. */
  lemma InsertKeepsAgreement(h: Hasher, st: Store, s: Stat, version: Version)
    requires GoodHasher(h) && Agree(h, st) && CanInsert(h, st, s, version)
    ensures Agree(h, Inserted(h, st, s, version))
  {
    var k, merged, r := ItemKey(h, s, version), Merged(h, st, s, version), EncodeSumKey(s, version);
    var t := Inserted(h, st, s, version);
    assert ItemsOk(h, t.items) by {
      MergedIsOk(h, st, s, version);
    }
    assert TablesAgree(t.items, t.values, t.sums, ValueKeyOf, SumKeyOf, ValueOf, DecodeSumValue) by {
      InsertedShape(h, st, s, version);
      BumpedSumDecodes(st, r, k !in st.items, s.value);
      if k in st.items {
        IndexIsInjective(h, st.items, k);
      }
      SetKeepsAgreement(st.items, st.values, st.sums, ValueKeyOf, SumKeyOf, ValueOf, DecodeSumValue, k, merged,
                        BumpedSum(st, r, k !in st.items, s.value));
    }
  }

  // ---------- CleanExpired ----------

  function NotBelow(end: ByteString): ByteString -> bool
  {
    k => !Less(k, end)
  }

  /** DeleteRange("", end) on each table. */
  function Cleaned(st: Store, end: ByteString): Store
  {
    Store(CutMap(st.items, NotBelow(end)), CutSet(st.values, NotBelow(end)), CutMap(st.sums, NotBelow(end)))
  }

  lemma DigitsAreSuffix(h: Hasher, s: Stat, version: Version)
    requires GoodHasher(h)
    ensures IsSuffix(UniqueKey(h, s, version))
  {
    assert UniqueKey(h, s, version)[0] in UniqueKey(h, s, version);
  }

  /** The three keys of one item lie on one side of the cutoff. */
  lemma KeysCutTogether(h: Hasher, k: ByteString, s: Stat, expires: ByteString, version: Version)
    requires GoodHasher(h) && ItemOk(h, k, s) && IsTime(expires)
    ensures var end := Cutoff(expires, version);
      Less(k, end) == Less(ValueKeyOf(k, s), end) == Less(SumKeyOf(k, s), end)
  {
    var v, server, value := VersionOf(k), Int64ToBigEndian(s.serverId), Int64ToBigEndian(s.value);
    DigitsAreSuffix(h, s, v);
    ServerIsSuffix(s.serverId, []);
    ServerIsSuffix(s.serverId, value + s.hash);
    assert ValueKeyOf(k, s) == Head(s.time, v) + (server + (value + s.hash));
    assert SumKeyOf(k, s) == Head(s.time, v) + (server + []);
    CutoffSeesHeadOnly(s.time, v, s.hash, expires, version);
    CutoffSeesHeadOnly(s.time, v, server + (value + s.hash), expires, version);
    CutoffSeesHeadOnly(s.time, v, server + [], expires, version);
  }

  /** Cleaning removes whole rows: every item, its value key and its sum row, or none of them. */
  lemma CleanKeepsAgreement(h: Hasher, st: Store, expires: ByteString, version: Version)
    requires GoodHasher(h) && Agree(h, st) && IsTime(expires)
    ensures Agree(h, Cleaned(st, Cutoff(expires, version)))
  {
    var end := Cutoff(expires, version);
    forall k | k in st.items
      ensures Less(k, end) == Less(ValueKeyOf(k, st.items[k]), end) == Less(SumKeyOf(k, st.items[k]), end)
    {
      KeysCutTogether(h, k, st.items[k], expires, version);
    }
    CutKeepsAgreement(st.items, st.values, st.sums, ValueKeyOf, SumKeyOf, ValueOf, DecodeSumValue, NotBelow(end));
  }

  /** What a cleaning leaves: exactly the items of later (time, version) pairs. */
  lemma CleanedItems(h: Hasher, st: Store, expires: ByteString, version: Version, k: ByteString)
    requires GoodHasher(h) && Agree(h, st) && IsTime(expires) && k in st.items
    ensures k in Cleaned(st, Cutoff(expires, version)).items
       <==> !(HeadOf(k) == (expires, version) || Less(Head(st.items[k].time, VersionOf(k)), Head(expires, version)))
  {
    var s := st.items[k];
    assert ItemOk(h, k, s);
    HeadOfKey(s.time, VersionOf(k), s.hash);
    DigitsAreSuffix(h, s, VersionOf(k));
    CutoffSeesHeadOnly(s.time, VersionOf(k), s.hash, expires, version);
  }

  // ---------- runs ----------

  datatype Operation = Insert(stat: Stat, version: Version) | Clean(expires: ByteString, version: Version)

  ghost predicate Legal(h: Hasher, st: Store, op: Operation)
  {
    match op
    case Insert(s, version) => CanInsert(h, st, s, version)
    case Clean(expires, _) => IsTime(expires)
  }

  ghost function Apply(h: Hasher, st: Store, op: Operation): Store
    requires Legal(h, st, op)
  {
    match op
    case Insert(s, version) => Inserted(h, st, s, version)
    case Clean(expires, version) => Cleaned(st, Cutoff(expires, version))
  }

  ghost predicate IsRun(h: Hasher, stores: seq<Store>, ops: seq<Operation>)
  {
    && |stores| == |ops| + 1
    && stores[0] == EMPTY
    && forall k :: 0 <= k < |ops| ==> Legal(h, stores[k], ops[k]) && stores[k + 1] == Apply(h, stores[k], ops[k])
  }

  /** In every run of inserts and cleanings, under any versions, the three tables agree. */
  lemma {:induction false} EveryRunAgrees(h: Hasher, stores: seq<Store>, ops: seq<Operation>)
    requires GoodHasher(h) && IsRun(h, stores, ops)
    ensures forall k :: 0 <= k < |stores| ==> Agree(h, stores[k])
  {
    for k := 0 to |ops|
      invariant forall j :: 0 <= j <= k ==> Agree(h, stores[j])
    {
      match ops[k]
      case Insert(s, version) => InsertKeepsAgreement(h, stores[k], s, version);
      case Clean(expires, version) => CleanKeepsAgreement(h, stores[k], expires, version);
    }
  }

  /** The values inserted for one (time, version, server). */
  function InsertedTotal(ops: seq<Operation>, r: ByteString): int
  {
    if ops == [] then 0
    else
      var last := ops[|ops| - 1];
      InsertedTotal(ops[..|ops| - 1], r)
      + if last.Insert? && EncodeSumKey(last.stat, last.version) == r then last.stat.value else 0
  }

  /** One insert adds its value to its own row and to no other. */
  lemma RowAfterInsert(h: Hasher, st: Store, s: Stat, version: Version, r: ByteString)
    requires GoodHasher(h) && Agree(h, st) && CanInsert(h, st, s, version)
    ensures RowTotal(Inserted(h, st, s, version), r) == RowTotal(st, r) + if EncodeSumKey(s, version) == r then s.value else 0
  {
    var k := ItemKey(h, s, version);
    MergedIsOk(h, st, s, version);
    if k in st.items {
      OldItemFacts(h, st, s, version);
    }
    RowAfterSet(st.items, SumKeyOf, ValueOf, k, Merged(h, st, s, version), r);
  }

  /** Without cleaning nothing is lost: a row holds exactly what was inserted for it. */
  lemma {:induction false} RowHoldsAllInserted(h: Hasher, stores: seq<Store>, ops: seq<Operation>, r: ByteString)
    requires GoodHasher(h) && IsRun(h, stores, ops)
    requires forall k :: 0 <= k < |ops| ==> ops[k].Insert?
    ensures RowTotal(stores[|ops|], r) == InsertedTotal(ops, r)
    ensures r in stores[|ops|].sums ==> DecodeSumValue(stores[|ops|].sums[r]).1 == InsertedTotal(ops, r) % TWO_TO_THE_64
  {
    EveryRunAgrees(h, stores, ops);
    EmptyStoreHasNoRows(r);
    for k := 0 to |ops|
      invariant RowTotal(stores[k], r) == InsertedTotal(ops[..k], r)
    {
      assert ops[k].Insert? && Agree(h, stores[k]);
      RowAfterInsert(h, stores[k], ops[k].stat, ops[k].version, r);
      TotalOneMore(ops, k, r);
    }
    assert ops[..|ops|] == ops;
    if r in stores[|ops|].sums {
      SumIsRowTotal(h, stores[|ops|], r);
    }
  }

  // ---------- one item for each identity ----------

  /** What identifies the item that an insert goes to. */
  function IdentityOf(op: Operation): Identity
    requires op.Insert?
  {
    Identity(op.stat.serverId, op.stat.keys, op.stat.time, op.version)
  }

  ghost predicate AllInserts(ops: seq<Operation>)
  {
    forall k :: 0 <= k < |ops| ==> ops[k].Insert?
  }

  ghost function Identities(ops: seq<Operation>): set<Identity>
    requires AllInserts(ops)
  {
    set k | 0 <= k < |ops| :: IdentityOf(ops[k])
  }

  /** The values inserted under one identity. */
  function InsertedFor(ops: seq<Operation>, i: Identity): int
  {
    if ops == [] then 0
    else
      var last := ops[|ops| - 1];
      InsertedFor(ops[..|ops| - 1], i) + if last.Insert? && IdentityOf(last) == i then last.stat.value else 0
  }

  /** No two of these identities have the same hash. */
  ghost predicate IsInjective(h: Hasher, identities: set<Identity>)
  {
    forall i, j {:trigger h(i), h(j)} :: i in identities && j in identities && h(i) == h(j) ==> i == j
  }

  /** Where the item of an identity lies. */
  function PlaceOf(h: Hasher, i: Identity): ByteString
  {
    i.time + [95] + BigEndian(i.version, 4) + h(i)
  }

  /** The item of an identity. */
  ghost predicate HasItem(h: Hasher, st: Store, i: Identity, value: int)
  {
    && 0 <= i.version < 0x8000_0000
    && var k := PlaceOf(h, i);
      && k in st.items
      && st.items[k].serverId == i.serverId && st.items[k].keys == i.keys && st.items[k].time == i.time
      && st.items[k].hash == h(i) && st.items[k].value == value
  }

  ghost predicate OnlyPlaced(h: Hasher, items: map<ByteString, Stat>, ids: set<Identity>)
  {
    forall k :: k in items ==> exists i :: i in ids && k == PlaceOf(h, i)
  }

  /** Every identity has its item, with the sum of its values, and there are no other items. */
  ghost predicate HoldsIdentities(h: Hasher, st: Store, ops: seq<Operation>)
    requires AllInserts(ops)
  {
    && (forall i :: i in Identities(ops) ==> HasItem(h, st, i, InsertedFor(ops, i)))
    && OnlyPlaced(h, st.items, Identities(ops))
  }

  lemma OneMoreIdentity(ops: seq<Operation>, k: nat)
    requires k < |ops| && AllInserts(ops)
    ensures AllInserts(ops[..k]) && AllInserts(ops[..k + 1])
    ensures Identities(ops[..k + 1]) == Identities(ops[..k]) + {IdentityOf(ops[k])} && Identities(ops[..k]) <= Identities(ops)
    ensures forall i :: InsertedFor(ops[..k + 1], i)
                     == InsertedFor(ops[..k], i) + if IdentityOf(ops[k]) == i then ops[k].stat.value else 0
  {
    assert ops[..k + 1][..k] == ops[..k];
    forall i | i in Identities(ops[..k]) ensures i in Identities(ops[..k + 1]) && i in Identities(ops) {
      var j :| 0 <= j < k && i == IdentityOf(ops[..k][j]);
      assert ops[..k + 1][j] == ops[j] == ops[..k][j];
    }
    assert ops[..k + 1][k] == ops[k];
  }

  lemma {:induction false} NothingForOthers(ops: seq<Operation>, i: Identity)
    requires AllInserts(ops) && i !in Identities(ops)
    ensures InsertedFor(ops, i) == 0
  {
    if ops != [] {
      OneMoreIdentity(ops, |ops| - 1);
      assert ops[..|ops|] == ops;
      NothingForOthers(ops[..|ops| - 1], i);
    }
  }

  /** The keys of two identities with different hashes differ. */
  lemma KeysOfIdentities(h: Hasher, i: Identity, j: Identity)
    requires IsTime(i.time) && IsTime(j.time) && i.version < 0x8000_0000 && j.version < 0x8000_0000
    requires PlaceOf(h, i) == PlaceOf(h, j)
    ensures h(i) == h(j)
  {
    var k := FullKey(i.time, i.version, h(i));
    HeadOfKey(i.time, i.version, h(i));
    HeadOfKey(j.time, j.version, h(j));
    assert k == FullKey(j.time, j.version, h(j));
    assert |i.time| == |j.time|;
    assert k[|i.time| + 5..] == h(i) && k[|j.time| + 5..] == h(j);
  }

  /** An insert goes to the item of its identity. */
  lemma OwnItem(h: Hasher, st: Store, ops: seq<Operation>, s: Stat, version: Version, all: set<Identity>)
    requires GoodHasher(h) && ItemsOk(h, st.items) && CanInsert(h, st, s, version)
    requires AllInserts(ops) && HoldsIdentities(h, st, ops) && IsInjective(h, all) && Identities(ops) <= all
    requires Identity(s.serverId, s.keys, s.time, version) in all
    ensures var i := Identity(s.serverId, s.keys, s.time, version);
      PlaceOf(h, i) == ItemKey(h, s, version) && OldValue(st, PlaceOf(h, i)) == InsertedFor(ops, i)
  {
    var i := Identity(s.serverId, s.keys, s.time, version);
    if i in Identities(ops) {
      assert HasItem(h, st, i, InsertedFor(ops, i));
    } else {
      NothingForOthers(ops, i);
      if PlaceOf(h, i) in st.items {
        var j :| j in Identities(ops) && PlaceOf(h, i) == PlaceOf(h, j);
        SamePlace(h, st, i, j, InsertedFor(ops, j));
      }
    }
  }

  lemma SamePlace(h: Hasher, st: Store, i: Identity, j: Identity, value: int)
    requires ItemsOk(h, st.items) && HasItem(h, st, j, value) && IsTime(i.time) && i.version < 0x8000_0000
    requires PlaceOf(h, i) == PlaceOf(h, j)
    ensures h(i) == h(j)
  {
    assert ItemOk(h, PlaceOf(h, j), st.items[PlaceOf(h, j)]);
    KeysOfIdentities(h, i, j);
  }

  /** And to no other. */
  lemma OtherItem(h: Hasher, st: Store, i: Identity, j: Identity, value: int, merged: Stat, values: set<ByteString>,
                  sums: map<ByteString, ByteString>)
    requires ItemsOk(h, st.items) && HasItem(h, st, j, value) && IsTime(i.time) && i.version < 0x8000_0000 && h(i) != h(j)
    ensures HasItem(h, Store(st.items[PlaceOf(h, i) := merged], values, sums), j, value)
  {
    if PlaceOf(h, i) == PlaceOf(h, j) {
      SamePlace(h, st, i, j, value);
    }
  }

  lemma InsertedItem(h: Hasher, st: Store, ops: seq<Operation>, s: Stat, version: Version, all: set<Identity>)
    requires GoodHasher(h) && ItemsOk(h, st.items) && CanInsert(h, st, s, version)
    requires AllInserts(ops) && HoldsIdentities(h, st, ops) && IsInjective(h, all) && Identities(ops) <= all
    requires Identity(s.serverId, s.keys, s.time, version) in all
    ensures var i := Identity(s.serverId, s.keys, s.time, version);
      && HasItem(h, Inserted(h, st, s, version), i, InsertedFor(ops, i) + s.value)
      && forall j :: j in Identities(ops) && j != i ==> HasItem(h, Inserted(h, st, s, version), j, InsertedFor(ops, j))
  {
    var i, after := Identity(s.serverId, s.keys, s.time, version), Inserted(h, st, s, version);
    OwnItem(h, st, ops, s, version, all);
    forall j | j in Identities(ops) && j != i ensures HasItem(h, after, j, InsertedFor(ops, j)) {
      assert HasItem(h, st, j, InsertedFor(ops, j));
      OtherItem(h, st, i, j, InsertedFor(ops, j), Merged(h, st, s, version), after.values, after.sums);
    }
  }

  lemma InsertKeepsIdentities(h: Hasher, st: Store, ops: seq<Operation>, k: nat)
    requires GoodHasher(h) && ItemsOk(h, st.items) && k < |ops| && AllInserts(ops) && AllInserts(ops[..k])
    requires CanInsert(h, st, ops[k].stat, ops[k].version) && IsInjective(h, Identities(ops))
    requires HoldsIdentities(h, st, ops[..k])
    ensures AllInserts(ops[..k + 1]) && HoldsIdentities(h, Inserted(h, st, ops[k].stat, ops[k].version), ops[..k + 1])
  {
    var s, version := ops[k].stat, ops[k].version;
    var after, i := Inserted(h, st, s, version), IdentityOf(ops[k]);
    OneMoreIdentity(ops, k);
    IdentityIsInserted(ops, k);
    assert Identities(ops[..k]) <= Identities(ops);
    InsertedItem(h, st, ops[..k], s, version, Identities(ops));
    OwnItem(h, st, ops[..k], s, version, Identities(ops));
    NoOtherItems(h, st.items, after.items, Identities(ops[..k]), i);
    var now, before := Identities(ops[..k + 1]), Identities(ops[..k]);
    forall j | j in now ensures HasItem(h, after, j, InsertedFor(ops[..k + 1], j)) {
      assert j != i ==> j in before;
    }
  }

  lemma IdentityIsInserted(ops: seq<Operation>, k: nat)
    requires k < |ops| && AllInserts(ops)
    ensures IdentityOf(ops[k]) in Identities(ops)
  {
  }

  lemma NoOtherItems(h: Hasher, items: map<ByteString, Stat>, after: map<ByteString, Stat>, ids: set<Identity>, i: Identity)
    requires OnlyPlaced(h, items, ids) && after.Keys == items.Keys + {PlaceOf(h, i)}
    ensures OnlyPlaced(h, after, ids + {i})
  {
    forall k | k in after ensures exists j :: j in ids + {i} && k == PlaceOf(h, j) {
      if k == PlaceOf(h, i) {
        assert i in ids + {i};
      } else {
        var j :| j in ids && k == PlaceOf(h, j);
        assert j in ids + {i};
      }
    }
  }

  /** Without cleaning, and while the hash tells the inserted identities apart, each of them (server, keys, time and
      version) has its own item, whose value is the sum of the values inserted under it, and there are as many items as
      identities. */
  lemma {:induction false} ItemsHoldAllInserted(h: Hasher, stores: seq<Store>, ops: seq<Operation>)
    requires GoodHasher(h) && IsRun(h, stores, ops) && AllInserts(ops) && IsInjective(h, Identities(ops))
    ensures forall i :: i in Identities(ops) ==> HasItem(h, stores[|ops|], i, InsertedFor(ops, i))
    ensures |stores[|ops|].items| == |Identities(ops)|
  {
    EveryRunAgrees(h, stores, ops);
    for k := 0 to |ops|
      invariant AllInserts(ops[..k]) && HoldsIdentities(h, stores[k], ops[..k])
    {
      assert Agree(h, stores[k]);
      InsertKeepsIdentities(h, stores[k], ops, k);
    }
    assert ops[..|ops|] == ops;
    EqualSizes(h, stores[|ops|], ops);
  }

  lemma EqualSizes(h: Hasher, st: Store, ops: seq<Operation>)
    requires AllInserts(ops) && HoldsIdentities(h, st, ops) && IsInjective(h, Identities(ops)) && ItemsOk(h, st.items)
    ensures |st.items| == |Identities(ops)|
  {
    var keyOf := (i: Identity) => PlaceOf(h, i);
    var ids := Identities(ops);
    forall i | i in ids ensures keyOf(i) in st.items.Keys {
      assert HasItem(h, st, i, InsertedFor(ops, i));
    }
    forall i, j | i in ids && j in ids && keyOf(i) == keyOf(j) ensures i == j {
      assert HasItem(h, st, i, InsertedFor(ops, i)) && HasItem(h, st, j, InsertedFor(ops, j));
      assert ItemOk(h, keyOf(i), st.items[keyOf(i)]);
      KeysOfIdentities(h, i, j);
    }
    SameSize(ids, keyOf, st.items.Keys);
    assert |st.items| == |st.items.Keys|;
  }

  ghost function RowTotal(st: Store, r: ByteString): int { MapSum(Row(st.items, SumKeyOf, ValueOf, r)) }

  lemma EmptyStoreHasNoRows(r: ByteString)
    ensures RowTotal(EMPTY, r) == 0
  {
    assert Row(EMPTY.items, SumKeyOf, ValueOf, r) == map[];
  }

  lemma TotalOneMore(ops: seq<Operation>, k: nat, r: ByteString)
    requires k < |ops| && ops[k].Insert?
    ensures InsertedTotal(ops[..k + 1], r)
         == InsertedTotal(ops[..k], r) + if EncodeSumKey(ops[k].stat, ops[k].version) == r then ops[k].stat.value else 0
  {
    assert ops[..k + 1][..k] == ops[..k];
  }

  lemma SumIsRowTotal(h: Hasher, st: Store, r: ByteString)
    requires Agree(h, st) && r in st.sums
    ensures DecodeSumValue(st.sums[r]).1 == RowTotal(st, r) % TWO_TO_THE_64
  {
  }
}
