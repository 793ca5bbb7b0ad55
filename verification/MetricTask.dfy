/** The metrics task itself: its methods over the three tables, and the query that selects what is uploaded
    (internal/metrics/task_kv.go). */
module MetricTask {
  import opened Bytes
  import opened IndexedTables
  import opened MetricKeys
  import opened MetricStore
  import opened Wrappers

  // ---------- scanning a set of keys downwards ----------

  ghost predicate IsGreatest(keys: set<ByteString>, k: ByteString)
  {
    k in keys && forall j :: j in keys ==> !Less(k, j)
  }

  lemma {:induction false} GreatestExists(keys: set<ByteString>)
    requires keys != {}
    ensures exists k :: IsGreatest(keys, k)
  {
    var x :| x in keys;
    LessIrreflexive(x);
    if keys == {x} {
      assert IsGreatest(keys, x);
    } else {
      var rest := keys - {x};
      assert keys == rest + {x};
      GreatestExists(rest);
      var g :| IsGreatest(rest, g);
      if Less(g, x) {
        forall j | j in keys ensures !Less(x, j) {
          if Less(x, j) && j != x {
            LessTransitive(g, x, j);
          }
        }
        assert IsGreatest(keys, x);
      } else {
        assert IsGreatest(keys, g);
      }
    }
  }

  lemma GreatestIsUnique(keys: set<ByteString>, k: ByteString, j: ByteString)
    requires IsGreatest(keys, k) && IsGreatest(keys, j)
    ensures k == j
  {
    LessTotal(k, j);
  }

  /** The `limit` greatest keys, from the greatest down. */
  ghost function DescScan(keys: set<ByteString>, limit: nat): (scan: seq<ByteString>)
    ensures |scan| == if |keys| <= limit then |keys| else limit
    ensures forall i :: 0 <= i < |scan| ==> scan[i] in keys
  {
    if limit == 0 || keys == {} then []
    else
      GreatestExists(keys);
      var k :| IsGreatest(keys, k);
      [k] + DescScan(keys - {k}, limit - 1)
  }

  ghost predicate Descending(scan: seq<ByteString>)
  {
    forall i, j {:trigger scan[i], scan[j]} :: 0 <= i < j < |scan| ==> Less(scan[j], scan[i])
  }

  lemma {:induction false} DescScanIsDescending(keys: set<ByteString>, limit: nat, scan: seq<ByteString>)
    requires scan == DescScan(keys, limit)
    ensures Descending(scan)
    ensures forall k, i :: k in keys && k !in scan && 0 <= i < |scan| ==> Less(k, scan[i])
  {
    if limit > 0 && keys != {} {
      var rest := keys - {scan[0]};
      assert IsGreatest(keys, scan[0]) && scan[1..] == DescScan(rest, limit - 1);
      DescScanIsDescending(rest, limit - 1, scan[1..]);
      forall k | k in rest ensures Less(k, scan[0]) {
        LessTotal(k, scan[0]);
      }
      assert forall j :: 0 < j < |scan| ==> scan[j] == scan[1..][j - 1] && scan[j] in rest;
      forall k, i | k in keys && k !in scan && 0 <= i < |scan| ensures Less(k, scan[i]) {
        assert k in rest && k !in scan[1..];
      }
    }
  }

  // ---------- which keys a prefix selects ----------

  /** The bounds of a prefix iterator: from the prefix up to, but without, the prefix followed by 0xFF. */
  predicate InBounds(prefix: ByteString, k: ByteString)
  {
    !Less(k, prefix) && Less(k, prefix + [0xFF])
  }

  function Selected(values: set<ByteString>, prefix: ByteString): set<ByteString>
  {
    set k | k in values && InBounds(prefix, k)
  }

  /** A key within the bounds starts with the prefix. */
  lemma {:induction false} BoundsMeanPrefix(prefix: ByteString, k: ByteString)
    requires InBounds(prefix, k)
    ensures prefix <= k
  {
    if prefix != [] {
      assert k != [] && k[0] == prefix[0];
      assert (prefix + [0xFF])[1..] == prefix[1..] + [0xFF];
      BoundsMeanPrefix(prefix[1..], k[1..]);
    }
  }

  /** The prefix of one (time, version, server) selects the value keys of exactly its items. */
  lemma PrefixSelectsRow(h: Hasher, k: ByteString, s: Stat, time: ByteString, version: Version, server: Int63)
    requires GoodHasher(h) && ItemOk(h, k, s) && IsTime(time)
    ensures InBounds(SumKey(time, version, server), ValueKeyOf(k, s)) <==> SumKeyOf(k, s) == SumKey(time, version, server)
  {
    var prefix, own, key := SumKey(time, version, server), SumKeyOf(k, s), ValueKeyOf(k, s);
    var tail := Int64ToBigEndian(s.value) + s.hash;
    if own == prefix {
      ServerIsSuffix(s.value, s.hash);
      assert key == prefix + tail && prefix == prefix + [];
      LessSamePrefix(prefix, tail, []);
      LessSamePrefix(prefix, tail, [0xFF]);
    }
    if InBounds(prefix, key) {
      BoundsMeanPrefix(prefix, key);
      SameTimeOfPrefix(time, version, server, own, s.time, VersionOf(k), s.serverId, tail);
    }
  }

  lemma SameTimeOfPrefix(time: ByteString, version: Version, server: Int63, own: ByteString,
                         time': ByteString, version': Version, server': Int63, tail: ByteString)
    requires IsTime(time) && IsTime(time') && own == SumKey(time', version', server')
    requires SumKey(time, version, server) <= own + tail
    ensures own == SumKey(time, version, server)
  {
    var p, key := SumKey(time, version, server), own + tail;
    var a, b := Int32ToBigEndian(version) + Int64ToBigEndian(server), Int32ToBigEndian(version') + Int64ToBigEndian(server');
    assert p == time + [UNDERSCORE] + a && own == time' + [UNDERSCORE] + b;
    var rest := key[|time| + 1..];
    assert key == time + [UNDERSCORE] + rest by {
      assert key[..|time|] == p[..|time|] == time && key[|time|] == p[|time|] == UNDERSCORE;
    }
    TimeIndexOfKey(time, rest);
    assert key == time' + [UNDERSCORE] + (b + tail);
    TimeIndexOfKey(time', b + tail);
    assert |p| == |own| && own == key[..|own|] && p == key[..|p|];
  }

  /** A selected value key decodes to its item, which is found under the key that the decoded parts make. */
  lemma SelectedKeyResolves(h: Hasher, st: Store, time: ByteString, version: Version, server: Int63, key: ByteString)
    returns (k: ByteString)
    requires GoodHasher(h) && Agree(h, st) && IsTime(time)
    requires key in Selected(st.values, SumKey(time, version, server))
    ensures k in st.items && key == ValueKeyOf(k, st.items[k])
    ensures DecodeValueKey(key) == Success(DecodedValueKey(server, time, version, st.items[k].value, st.items[k].hash))
    ensures k == FullKey(time, version, st.items[k].hash)
  {
    k :| k in st.items && key == ValueKeyOf(k, st.items[k]);
    var s := st.items[k];
    assert ItemOk(h, k, s);
    PrefixSelectsRow(h, k, s, time, version, server);
    SumKeyRoundTrip(time, version, server);
    SumKeyRoundTrip(s.time, VersionOf(k), s.serverId);
    ValueKeyRoundTrip(s.time, VersionOf(k), s.serverId, s.value, s.hash);
  }

  lemma {:induction false} ScanOfAll(keys: set<ByteString>, limit: nat)
    requires |keys| <= limit
    ensures forall k :: k in keys ==> k in DescScan(keys, limit)
  {
    if keys != {} {
      var scan := DescScan(keys, limit);
      ScanOfAll(keys - {scan[0]}, limit - 1);
      assert scan == [scan[0]] + DescScan(keys - {scan[0]}, limit - 1);
    }
  }

  /** `scan` lists keys of the greatest ranks, downwards; a key is left out only when the limit is reached. */
  ghost predicate ListsLargest(scan: seq<ByteString>, keys: set<ByteString>, limit: nat, rank: ByteString -> nat)
  {
    && (forall i :: 0 <= i < |scan| ==> scan[i] in keys)
    && (forall i, j :: 0 <= i < j < |scan| ==> scan[i] != scan[j] && rank(scan[j]) <= rank(scan[i]))
    && (forall k :: k in keys && k !in scan ==> |scan| == limit && forall i :: 0 <= i < |scan| ==> rank(k) <= rank(scan[i]))
  }

  lemma ScanListsLargest(keys: set<ByteString>, limit: nat, rank: ByteString -> nat)
    requires forall a, b :: a in keys && b in keys && Less(a, b) ==> rank(a) <= rank(b)
    ensures ListsLargest(DescScan(keys, limit), keys, limit, rank)
  {
    var scan := DescScan(keys, limit);
    DescScanIsDescending(keys, limit, scan);
    if |keys| <= limit {
      ScanOfAll(keys, limit);
    }
    forall i, j | 0 <= i < j < |scan| ensures scan[i] != scan[j] && rank(scan[j]) <= rank(scan[i]) {
      LessMeansDifferent(scan[j], scan[i]);
    }
  }

  /** The value inside a value key. */
  function KeyValue(key: ByteString): nat
  {
    match DecodeValueKey(key)
    case Success(d) => d.value
    case Failure(_) => 0
  }

  /** The scan of one (time, version, server) lists its largest values, downwards. */
  lemma ScanFindsLargest(h: Hasher, st: Store, time: ByteString, version: Version, server: Int63, limit: nat)
    requires GoodHasher(h) && Agree(h, st) && IsTime(time)
    ensures var keys := Selected(st.values, SumKey(time, version, server));
            ListsLargest(DescScan(keys, limit), keys, limit, KeyValue)
  {
    var keys := Selected(st.values, SumKey(time, version, server));
    SelectedOrder(h, st, time, version, server, keys);
    ScanListsLargest(keys, limit, KeyValue);
  }

  /** And those keys are the value keys of the items of that (time, version, server), with their current values. */
  lemma SelectedAreTheItems(h: Hasher, st: Store, time: ByteString, version: Version, server: Int63, k: ByteString)
    requires GoodHasher(h) && Agree(h, st) && IsTime(time) && k in st.items
    ensures ValueKeyOf(k, st.items[k]) in Selected(st.values, SumKey(time, version, server))
       <==> SumKeyOf(k, st.items[k]) == SumKey(time, version, server)
    ensures KeyValue(ValueKeyOf(k, st.items[k])) == st.items[k].value
  {
    var s := st.items[k];
    assert ItemOk(h, k, s);
    PrefixSelectsRow(h, k, s, time, version, server);
    ValueKeyRoundTrip(s.time, VersionOf(k), s.serverId, s.value, s.hash);
  }

  /** Among the selected keys, byte order is the order of values. */
  lemma SelectedOrder(h: Hasher, st: Store, time: ByteString, version: Version, server: Int63, keys: set<ByteString>)
    requires GoodHasher(h) && Agree(h, st) && IsTime(time)
    requires keys == Selected(st.values, SumKey(time, version, server))
    ensures forall a, b :: a in keys && b in keys && Less(a, b) ==> KeyValue(a) <= KeyValue(b)
  {
    forall a, b | a in keys && b in keys && Less(a, b) ensures KeyValue(a) <= KeyValue(b) {
      var k := SelectedKeyResolves(h, st, time, version, server, a);
      var j := SelectedKeyResolves(h, st, time, version, server, b);
      var s, t := st.items[k], st.items[j];
      if t.value < s.value {
        assert ItemOk(h, k, s) && ItemOk(h, j, t);
        SelectedParts(h, st, time, version, server, k);
        SelectedParts(h, st, time, version, server, j);
        ValueKeyOrder(time, version, server, s.value, s.hash, version, server, t.value, t.hash);
      }
    }
  }

  lemma SelectedParts(h: Hasher, st: Store, time: ByteString, version: Version, server: Int63, k: ByteString)
    requires GoodHasher(h) && Agree(h, st) && IsTime(time) && k in st.items
    requires InBounds(SumKey(time, version, server), ValueKeyOf(k, st.items[k]))
    ensures st.items[k].time == time && VersionOf(k) == version && st.items[k].serverId == server
  {
    var s := st.items[k];
    assert ItemOk(h, k, s);
    PrefixSelectsRow(h, k, s, time, version, server);
    SumKeyRoundTrip(time, version, server);
    SumKeyRoundTrip(s.time, VersionOf(k), s.serverId);
  }

  // ---------- the metrics task ----------

  datatype UploadingStat = UploadingStat(hash: ByteString, keys: seq<string>, value: nat)

  datatype Upload = Upload(stats: seq<UploadingStat>, keepKeys: seq<ByteString>, count: nat, total: nat)

  const UPLOAD_LIMIT: nat := 20

  /** A stat is sent when its value is positive and not the cached one. */
  function SentFor(items: map<ByteString, Stat>, cache: map<ByteString, int>, time: ByteString, d: DecodedValueKey)
    : seq<UploadingStat>
  {
    var k := time + [UNDERSCORE] + BigEndian(d.version, 4) + d.hash;
    if d.value <= 0 || (d.hash in cache && cache[d.hash] == d.value) || k !in items then []
    else [UploadingStat(d.hash, items[k].keys, d.value)]
  }

  /** A hash is kept when its value is positive and the cached one. */
  function KeptFor(cache: map<ByteString, int>, d: DecodedValueKey): seq<ByteString>
  {
    if d.value > 0 && d.hash in cache && cache[d.hash] == d.value then [d.hash] else []
  }

  function Sent(items: map<ByteString, Stat>, cache: map<ByteString, int>, time: ByteString, ds: seq<DecodedValueKey>)
    : seq<UploadingStat>
  {
    if ds == [] then [] else Sent(items, cache, time, ds[..|ds| - 1]) + SentFor(items, cache, time, ds[|ds| - 1])
  }

  function Unchanged(cache: map<ByteString, int>, ds: seq<DecodedValueKey>): seq<ByteString>
  {
    if ds == [] then [] else Unchanged(cache, ds[..|ds| - 1]) + KeptFor(cache, ds[|ds| - 1])
  }

  /** What the cache takes over once the upload has succeeded: every positive value that was not there already. */
  function NewCached(cache: map<ByteString, int>, ds: seq<DecodedValueKey>): map<ByteString, int>
  {
    if ds == [] then map[]
    else
      var d, earlier := ds[|ds| - 1], NewCached(cache, ds[..|ds| - 1]);
      if d.value > 0 && KeptFor(cache, d) == [] then earlier[d.hash := d.value] else earlier
  }

  ghost predicate AllDecode(scan: seq<ByteString>)
  {
    forall i :: 0 <= i < |scan| ==> DecodeValueKey(scan[i]).Success?
  }

  ghost function DecodedScan(scan: seq<ByteString>): seq<DecodedValueKey>
    requires AllDecode(scan)
  {
    seq(|scan|, i requires 0 <= i < |scan| => DecodeValueKey(scan[i]).value)
  }

  ghost predicate Decodes(scan: seq<ByteString>, ds: seq<DecodedValueKey>)
  {
    |ds| == |scan| && forall i :: 0 <= i < |scan| ==> DecodeValueKey(scan[i]) == Success(ds[i])
  }

  lemma DecodesIsDecodedScan(scan: seq<ByteString>, ds: seq<DecodedValueKey>)
    requires Decodes(scan, ds)
    ensures AllDecode(scan) && ds == DecodedScan(scan)
  {
  }

  lemma DecodesOneMore(scan: seq<ByteString>, i: nat, ds: seq<DecodedValueKey>, d: DecodedValueKey)
    requires i < |scan| && Decodes(scan[..i], ds) && DecodeValueKey(scan[i]) == Success(d)
    ensures Decodes(scan[..i + 1], ds + [d])
  {
    assert forall j :: 0 <= j < i ==> scan[..i][j] == scan[..i + 1][j];
  }

  lemma SentOneMore(items: map<ByteString, Stat>, cache: map<ByteString, int>, time: ByteString,
                    ds: seq<DecodedValueKey>, d: DecodedValueKey)
    ensures Sent(items, cache, time, ds + [d]) == Sent(items, cache, time, ds) + SentFor(items, cache, time, d)
    ensures Unchanged(cache, ds + [d]) == Unchanged(cache, ds) + KeptFor(cache, d)
    ensures NewCached(cache, ds + [d])
         == if d.value > 0 && KeptFor(cache, d) == [] then NewCached(cache, ds)[d.hash := d.value] else NewCached(cache, ds)
  {
    assert (ds + [d])[..|ds|] == ds;
  }

  /** The stat of a decoded key that is to be sent. */
  predicate IsToSend(items: map<ByteString, Stat>, cache: map<ByteString, int>, time: ByteString, d: DecodedValueKey,
                     u: UploadingStat)
  {
    var k := time + [95] + BigEndian(d.version, 4) + d.hash;
    && d.value > 0 && !(d.hash in cache && cache[d.hash] == d.value)
    && k in items && u == UploadingStat(d.hash, items[k].keys, d.value)
  }

  predicate IsKnown(cache: map<ByteString, int>, d: DecodedValueKey, hash: ByteString)
  {
    d.hash == hash && d.value > 0 && hash in cache && cache[hash] == d.value
  }

  predicate IsNews(cache: map<ByteString, int>, d: DecodedValueKey, hash: ByteString)
  {
    d.hash == hash && d.value > 0 && !(hash in cache && cache[hash] == d.value)
  }

  /** Exactly the stats with a new positive value are sent. */
  lemma {:induction false} SentExactly(items: map<ByteString, Stat>, cache: map<ByteString, int>, time: ByteString,
                                       ds: seq<DecodedValueKey>, u: UploadingStat)
    ensures u in Sent(items, cache, time, ds) <==> exists d :: d in ds && IsToSend(items, cache, time, d, u)
    ensures |Sent(items, cache, time, ds)| + |Unchanged(cache, ds)| <= |ds|
  {
    if ds != [] {
      var init, last := ds[..|ds| - 1], ds[|ds| - 1];
      assert ds == init + [last];
      SentExactly(items, cache, time, init, u);
      SentOneMore(items, cache, time, init, last);
      assert u in SentFor(items, cache, time, last) <==> IsToSend(items, cache, time, last, u);
    }
  }

  /** Exactly the hashes with a positive value that the cache has already are kept. */
  lemma {:induction false} KeptExactly(cache: map<ByteString, int>, ds: seq<DecodedValueKey>, hash: ByteString)
    ensures hash in Unchanged(cache, ds) <==> exists d :: d in ds && IsKnown(cache, d, hash)
  {
    if ds != [] {
      var init, last := ds[..|ds| - 1], ds[|ds| - 1];
      assert ds == init + [last];
      KeptExactly(cache, init, hash);
      assert hash in KeptFor(cache, last) <==> IsKnown(cache, last, hash);
    }
  }

  /** Exactly the new values go to the cache. */
  lemma {:induction false} CachedExactly(cache: map<ByteString, int>, ds: seq<DecodedValueKey>, hash: ByteString)
    ensures hash in NewCached(cache, ds) <==> exists d :: d in ds && IsNews(cache, d, hash)
    ensures hash in NewCached(cache, ds) ==> exists d :: d in ds && d.hash == hash && d.value == NewCached(cache, ds)[hash]
  {
    if ds != [] {
      var init, last := ds[..|ds| - 1], ds[|ds| - 1];
      assert ds == init + [last];
      CachedExactly(cache, init, hash);
      assert last.value > 0 && KeptFor(cache, last) == [] <==> IsNews(cache, last, last.hash);
      assert last in ds && forall d :: d in init ==> d in ds;
    }
  }

  /** While the tables agree, the query never meets a key that it cannot decode. */
  lemma ScanDecodes(h: Hasher, st: Store, time: ByteString, version: Version, server: Int63, limit: nat)
    requires GoodHasher(h) && Agree(h, st) && IsTime(time)
    ensures AllDecode(DescScan(Selected(st.values, SumKey(time, version, server)), limit))
  {
    var scan := DescScan(Selected(st.values, SumKey(time, version, server)), limit);
    forall i | 0 <= i < |scan| ensures DecodeValueKey(scan[i]).Success? {
      var k := SelectedKeyResolves(h, st, time, version, server, scan[i]);
    }
  }

  /** Every selected key with a positive value is sent, with the value of its item, unless the cache already has that
      value, and then it is kept: no selected key misses its item. */
  lemma SelectedIsSentOrKept(h: Hasher, st: Store, cache: map<ByteString, int>, time: ByteString, version: Version,
                             server: Int63, key: ByteString)
    returns (d: DecodedValueKey, k: ByteString)
    requires GoodHasher(h) && Agree(h, st) && IsTime(time)
    requires key in Selected(st.values, SumKey(time, version, server))
    ensures DecodeValueKey(key) == Success(d)
    ensures k in st.items && key == ValueKeyOf(k, st.items[k]) && d.value == st.items[k].value && d.hash == st.items[k].hash
    ensures d.value > 0 && (d.hash !in cache || cache[d.hash] != d.value) ==>
              && SentFor(st.items, cache, time, d) == [UploadingStat(d.hash, st.items[k].keys, d.value)]
              && KeptFor(cache, d) == []
    ensures d.value > 0 && d.hash in cache && cache[d.hash] == d.value ==>
              SentFor(st.items, cache, time, d) == [] && KeptFor(cache, d) == [d.hash]
  {
    k := SelectedKeyResolves(h, st, time, version, server, key);
    d := DecodedValueKey(server, time, version, st.items[k].value, st.items[k].hash);
  }

  ghost predicate ValidTables(h: Hasher, st: Store)
  {
    GoodHasher(h) && Agree(h, st)
  }

  lemma TablesStayValid(h: Hasher, st: Store, stat: Stat, version: Version)
    ensures ValidTables(h, st) && CanInsert(h, st, stat, version) ==> ValidTables(h, Inserted(h, st, stat, version))
  {
    if ValidTables(h, st) && CanInsert(h, st, stat, version) {
      InsertKeepsAgreement(h, st, stat, version);
    }
  }

  class KVTask {
    const h: Hasher
    var version: Version
    var itemsTable: map<ByteString, Stat>
    var valuesTable: set<ByteString>
    var sumTable: map<ByteString, ByteString>
    var serverTimeMap: set<(int, ByteString)>
    var valuesCacheMap: map<ByteString, int>
    var isStopped: bool

    constructor (h: Hasher, version: Version)
      ensures Tables() == EMPTY && this.h == h && this.version == version && !isStopped && valuesCacheMap == map[]
    {
      this.h, this.version, isStopped := h, version, false;
      itemsTable, valuesTable, sumTable, serverTimeMap, valuesCacheMap := map[], {}, map[], {}, map[];
    }

    function Tables(): Store
      reads this`itemsTable, this`valuesTable, this`sumTable
    {
      Store(itemsTable, valuesTable, sumTable)
    }

    ghost predicate Valid()
      reads this`itemsTable, this`valuesTable, this`sumTable
    {
      ValidTables(h, Tables())
    }

    method InsertStat(stat: Stat)
      modifies this`serverTimeMap, this`itemsTable, this`valuesTable, this`sumTable
      ensures Tables() == if isStopped then old(Tables()) else Inserted(h, old(Tables()), stat, version)
      ensures old(Valid() && CanInsert(h, Tables(), stat, version)) ==> Valid()
      ensures serverTimeMap == if isStopped then old(serverTimeMap) else old(serverTimeMap) + {(stat.serverId, stat.time)}
    {
      if isStopped {
        return;
      }
      NoteServer(stat);
      InsertIntoTables(stat);
    }

    method NoteServer(stat: Stat)
      modifies this`serverTimeMap
      ensures serverTimeMap == old(serverTimeMap) + {(stat.serverId, stat.time)}
    {
      serverTimeMap := serverTimeMap + {(stat.serverId, stat.time)};
    }

    method InsertIntoTables(stat: Stat)
      modifies this`itemsTable, this`valuesTable, this`sumTable
      ensures Tables() == Inserted(h, old(Tables()), stat, version)
      ensures old(Valid() && CanInsert(h, Tables(), stat, version)) ==> Valid()
    {
      TablesStayValid(h, Tables(), stat, version);
      var isNew := PutItem(stat);
      BumpSum(stat, isNew, stat.value);
    }

    /** Insert or update the item and its value key. */
    method PutItem(stat: Stat) returns (isNew: bool)
      modifies this`itemsTable, this`valuesTable
      ensures var k, merged := ItemKey(h, stat, version), Merged(h, old(Tables()), stat, version);
        && isNew == (k !in old(itemsTable))
        && itemsTable == old(itemsTable)[k := merged]
        && valuesTable == (if isNew then old(valuesTable)
                           else old(valuesTable) - {EncodeValueKey(old(itemsTable)[k], version)})
                          + {EncodeValueKey(merged, version)}
    {
      var s := stat;
      if |s.hash| == 0 {
        s := s.(hash := UniqueKey(h, s, version));
      }
      var statKey := ItemKey(h, s, version);
      var oldValue := 0;
      isNew := false;
      if statKey !in itemsTable {
        isNew := true;
      } else {
        var oldStat := itemsTable[statKey];
        oldValue := oldStat.value;
        valuesTable := valuesTable - {EncodeValueKey(oldStat, version)};
      }
      oldValue := oldValue + s.value;
      s := s.(value := oldValue);
      itemsTable := itemsTable[statKey := s];
      valuesTable := valuesTable + {EncodeValueKey(s, version)};
    }

    method BumpSum(s: Stat, isNew: bool, newValue: int)
      modifies this`sumTable
      ensures var r := EncodeSumKey(s, version);
              sumTable == old(sumTable)[r := BumpedSum(old(Tables()), r, isNew, newValue)]
    {
      var sumKey := EncodeSumKey(s, version);
      var count, total: int := 0, 0;
      if sumKey in sumTable {
        var sum := DecodeSumValue(sumTable[sumKey]);
        count, total := sum.0, sum.1;
      }
      if isNew {
        count := count + 1;
      }
      total := total + newValue;
      sumTable := sumTable[sumKey := EncodeSumValue(count % TWO_TO_THE_64, total % TWO_TO_THE_64)];
    }

    method CleanExpired(expiresTime: ByteString)
      requires Valid() && IsTime(expiresTime)
      modifies this`itemsTable, this`valuesTable, this`sumTable
      ensures Valid()
      ensures Tables() == if isStopped then old(Tables()) else Cleaned(old(Tables()), Cutoff(expiresTime, version))
    {
      if isStopped {
        return;
      }
      CleanKeepsAgreement(h, Tables(), expiresTime, version);
      var rangeEnd := expiresTime + [UNDERSCORE] + Int32ToBigEndian(version) + [0xFF, 0xFF];
      itemsTable := CutMap(itemsTable, NotBelow(rangeEnd));
      valuesTable := CutSet(valuesTable, NotBelow(rangeEnd));
      sumTable := CutMap(sumTable, NotBelow(rangeEnd));
    }

    /** The query part of uploadServerStats; the cache is written only after the upload has succeeded. */
    method UploadServerStats(serverId: Int63, currentTime: ByteString, uploadSucceeds: bool)
      returns (upload: Result<Option<Upload>, string>)
      modifies this`valuesCacheMap
      ensures var prefix := SumKey(currentTime, version, serverId);
        var scan := DescScan(Selected(valuesTable, prefix), 20);
        && (upload.Success? <==> AllDecode(scan))
        && (upload.Success? ==> (upload.value.Some? <==> prefix in sumTable))
        && (upload.Success? && upload.value.Some? ==>
              var u := upload.value.value;
              && u.stats == Sent(itemsTable, old(valuesCacheMap), currentTime, DecodedScan(scan))
              && u.keepKeys == Unchanged(old(valuesCacheMap), DecodedScan(scan))
              && (u.count, u.total) == DecodeSumValue(sumTable[prefix]))
      ensures var prefix := SumKey(currentTime, version, serverId);
        valuesCacheMap == if upload.Success? && upload.value.Some? && uploadSucceeds
          then old(valuesCacheMap)
               + NewCached(old(valuesCacheMap), DecodedScan(DescScan(Selected(valuesTable, prefix), 20)))
          else old(valuesCacheMap)
    {
      var prefix := SumKey(currentTime, version, serverId);
      var scan := IterateDown(Selected(valuesTable, prefix), UPLOAD_LIMIT);
      var ok, stats, keepKeys, newCachedKeys := VisitAll(scan, currentTime);
      if !ok {
        return Failure("invalid value key");
      }
      if prefix !in sumTable {
        return Success(None);
      }
      var sum := DecodeSumValue(sumTable[prefix]);
      upload := Success(Some(Upload(stats, keepKeys, sum.0, sum.1)));
      if uploadSucceeds {
        valuesCacheMap := valuesCacheMap + newCachedKeys;
      }
    }

    method VisitAll(scan: seq<ByteString>, currentTime: ByteString)
      returns (ok: bool, stats: seq<UploadingStat>, keepKeys: seq<ByteString>, newCachedKeys: map<ByteString, int>)
      ensures ok <==> AllDecode(scan)
      ensures ok ==> stats == Sent(itemsTable, valuesCacheMap, currentTime, DecodedScan(scan))
      ensures ok ==> keepKeys == Unchanged(valuesCacheMap, DecodedScan(scan))
      ensures ok ==> newCachedKeys == NewCached(valuesCacheMap, DecodedScan(scan))
    {
      stats, keepKeys, newCachedKeys := [], [], map[];
      ghost var ds := [];
      for i := 0 to |scan|
        invariant Decodes(scan[..i], ds)
        invariant stats == Sent(itemsTable, valuesCacheMap, currentTime, ds)
        invariant keepKeys == Unchanged(valuesCacheMap, ds)
        invariant newCachedKeys == NewCached(valuesCacheMap, ds)
      {
        var decoded := DecodeValueKey(scan[i]);
        if decoded.Failure? {
          return false, stats, keepKeys, newCachedKeys;
        }
        var d := decoded.value;
        var sent, kept := Visit(d, currentTime);
        SentOneMore(itemsTable, valuesCacheMap, currentTime, ds, d);
        DecodesOneMore(scan, i, ds, d);
        stats := stats + sent;
        keepKeys := keepKeys + kept;
        if d.value > 0 && kept == [] {
          newCachedKeys := newCachedKeys[d.hash := d.value];
        }
        ds := ds + [d];
      }
      assert scan[..|scan|] == scan;
      DecodesIsDecodedScan(scan, ds);
      ok := true;
    }

    /** The callback of the query, for one decoded key. */
    method Visit(d: DecodedValueKey, currentTime: ByteString) returns (sent: seq<UploadingStat>, kept: seq<ByteString>)
      ensures sent == SentFor(itemsTable, valuesCacheMap, currentTime, d)
      ensures kept == KeptFor(valuesCacheMap, d)
    {
      sent, kept := [], [];
      if d.value <= 0 {
        return;
      }
      if d.hash in valuesCacheMap && valuesCacheMap[d.hash] == d.value {
        return [], [d.hash];
      }
      var itemKey := currentTime + [UNDERSCORE] + BigEndian(d.version, 4) + d.hash;
      if itemKey in itemsTable {
        sent := [UploadingStat(d.hash, itemsTable[itemKey].keys, d.value)];
      }
    }
  }

  /** The iterator: from the greatest key down, at most `limit` keys. */
  method IterateDown(keys: set<ByteString>, limit: nat) returns (scan: seq<ByteString>)
    ensures scan == DescScan(keys, limit)
  {
    scan := [];
    var rest, left := keys, limit;
    while left > 0 && rest != {}
      invariant scan + DescScan(rest, left) == DescScan(keys, limit)
      decreases left
    {
      GreatestExists(rest);
      var key :| key in rest && forall j :: j in rest ==> !Less(key, j);
      NextOfScan(rest, left, key);
      assert scan + ([key] + DescScan(rest - {key}, left - 1)) == scan + [key] + DescScan(rest - {key}, left - 1);
      scan := scan + [key];
      rest := rest - {key};
      left := left - 1;
    }
    assert scan + [] == scan;
  }

  lemma NextOfScan(rest: set<ByteString>, left: nat, key: ByteString)
    requires left > 0 && IsGreatest(rest, key)
    ensures DescScan(rest, left) == [key] + DescScan(rest - {key}, left - 1)
  {
    var scan := DescScan(rest, left);
    var k :| IsGreatest(rest, k) && scan == [k] + DescScan(rest - {k}, left - 1);
    GreatestIsUnique(rest, k, key);
  }
}
