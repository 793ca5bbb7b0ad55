/** A table of items with two tables derived from it: an index with one key for each item, and a sum row for each group
    of items. The keys are whatever `index` and `group` compute from an item. */
module IndexedTables {
  import opened Bytes
  import opened Sums

  /** The values of the items that belong to one group. */
  ghost function Row<K, S>(items: map<K, S>, group: (K, S) -> K, value: S -> int, r: K): map<K, int>
  {
    map k | k in items && group(k, items[k]) == r :: value(items[k])
  }

  ghost function IndexKeys<K, S>(items: map<K, S>, index: (K, S) -> K): set<K>
  {
    set k | k in items :: index(k, items[k])
  }

  ghost predicate RowAgrees<K, S>(items: map<K, S>, group: (K, S) -> K, value: S -> int, r: K, sum: (nat, nat))
  {
    var row := Row(items, group, value, r);
    sum == (|row| % TWO_TO_THE_64, MapSum(row) % TWO_TO_THE_64)
  }

  /** The index holds exactly the keys of the items; the groups with items have a row each, which counts and sums them. */
  ghost predicate TablesAgree<K, S, B>(items: map<K, S>, indexed: set<K>, sums: map<K, B>,
                                       index: (K, S) -> K, group: (K, S) -> K, value: S -> int, decode: B -> (nat, nat))
  {
    && indexed == IndexKeys(items, index)
    && sums.Keys == IndexKeys(items, group)
    && forall r :: r in sums ==> RowAgrees(items, group, value, r, decode(sums[r]))
  }

  /** Setting one item changes its own row, by the difference, and no other row. */
  lemma RowAfterSet<K, S>(items: map<K, S>, group: (K, S) -> K, value: S -> int, k: K, s: S, r: K)
    requires k in items ==> group(k, items[k]) == group(k, s)
    ensures var row, row' := Row(items, group, value, r), Row(items[k := s], group, value, r);
      if r == group(k, s) then
        && |row'| == |row| + (if k in items then 0 else 1)
        && MapSum(row') == MapSum(row) + value(s) - (if k in items then value(items[k]) else 0)
      else row' == row
  {
    var row, row' := Row(items, group, value, r), Row(items[k := s], group, value, r);
    if r == group(k, s) {
      assert row' == row[k := value(s)];
      MapSumUpdate(row, k, value(s));
    }
  }

  lemma IndexAfterSet<K, S>(items: map<K, S>, index: (K, S) -> K, k: K, s: S)
    requires k in items ==>
               forall j :: j in items && j != k ==> index(j, items[j]) != index(k, items[k])
    ensures IndexKeys(items[k := s], index)
         == (if k in items then IndexKeys(items, index) - {index(k, items[k])} else IndexKeys(items, index)) + {index(k, s)}
  {
    var before, after := IndexKeys(items, index), IndexKeys(items[k := s], index);
    var expected := (if k in items then before - {index(k, items[k])} else before) + {index(k, s)};
    forall x | x in after ensures x in expected {
      var j :| j in items[k := s] && x == index(j, items[k := s][j]);
      assert j != k ==> j in items && items[k := s][j] == items[j];
    }
    forall x | x in expected ensures x in after {
      if x == index(k, s) {
        assert k in items[k := s] && x == index(k, items[k := s][k]);
      } else {
        var j :| j in items && x == index(j, items[j]);
        assert j in items[k := s] && x == index(j, items[k := s][j]);
      }
    }
  }

  lemma EmptyRow<K, S>(items: map<K, S>, group: (K, S) -> K, value: S -> int, r: K)
    requires r !in IndexKeys(items, group)
    ensures RowAgrees(items, group, value, r, (0, 0))
  {
    assert Row(items, group, value, r) == map[];
  }

  /** The sum row of a group after one of its items went from `was` (0 for none) to `now`. */
  function Bumped(sum: (nat, nat), isNew: bool, added: int): (nat, nat)
  {
    ((if isNew then sum.0 + 1 else sum.0) % TWO_TO_THE_64, (sum.1 + added) % TWO_TO_THE_64)
  }

  function Added<K, S>(items: map<K, S>, value: S -> int, k: K, s: S): int
  {
    value(s) - (if k in items then value(items[k]) else 0)
  }

  lemma BumpedRowAgrees<K, S>(items: map<K, S>, group: (K, S) -> K, value: S -> int, k: K, s: S, sum: (nat, nat))
    requires k in items ==> group(k, items[k]) == group(k, s)
    requires RowAgrees(items, group, value, group(k, s), sum)
    ensures RowAgrees(items[k := s], group, value, group(k, s), Bumped(sum, k !in items, Added(items, value, k, s)))
  {
    var row := Row(items, group, value, group(k, s));
    RowAfterSet(items, group, value, k, s, group(k, s));
    ModAdd(|row|, 1);
    ModAdd(|row|, 0);
    ModAdd(MapSum(row), Added(items, value, k, s));
  }

  /** Set one item, replace its index key, bump its row: agreement is kept. */
  lemma SetKeepsAgreement<K, S, B>(items: map<K, S>, indexed: set<K>, sums: map<K, B>,
                                   index: (K, S) -> K, group: (K, S) -> K, value: S -> int, decode: B -> (nat, nat),
                                   k: K, s: S, bumped: B)
    requires TablesAgree(items, indexed, sums, index, group, value, decode)
    requires k in items ==> group(k, items[k]) == group(k, s)
    requires k in items ==> forall j :: j in items && j != k ==> index(j, items[j]) != index(k, items[k])
    requires decode(bumped) == Bumped(if group(k, s) in sums then decode(sums[group(k, s)]) else (0, 0),
                                      k !in items, Added(items, value, k, s))
    ensures TablesAgree(items[k := s],
                        (if k in items then indexed - {index(k, items[k])} else indexed) + {index(k, s)},
                        sums[group(k, s) := bumped], index, group, value, decode)
  {
    var after := sums[group(k, s) := bumped];
    IndexAfterSet(items, index, k, s);
    GroupsAfterSet(items, group, k, s);
    forall q | q in after ensures RowAgrees(items[k := s], group, value, q, decode(after[q])) {
      if q == group(k, s) {
        if q !in sums {
          EmptyRow(items, group, value, q);
        }
        BumpedRowAgrees(items, group, value, k, s, if q in sums then decode(sums[q]) else (0, 0));
      } else {
        RowAfterSet(items, group, value, k, s, q);
      }
    }
  }

  lemma GroupsAfterSet<K, S>(items: map<K, S>, group: (K, S) -> K, k: K, s: S)
    requires k in items ==> group(k, items[k]) == group(k, s)
    ensures IndexKeys(items[k := s], group) == IndexKeys(items, group) + {group(k, s)}
  {
    var before, after := IndexKeys(items, group), IndexKeys(items[k := s], group);
    forall x | x in after ensures x in before + {group(k, s)} {
      var j :| j in items[k := s] && x == group(j, items[k := s][j]);
      assert j != k ==> j in items && items[k := s][j] == items[j];
    }
    forall x | x in before + {group(k, s)} ensures x in after {
      if x == group(k, s) {
        assert k in items[k := s] && x == group(k, items[k := s][k]);
      } else {
        var j :| j in items && x == group(j, items[j]);
        assert j in items[k := s] && x == group(j, items[k := s][j]);
      }
    }
  }

  lemma ModAdd(a: int, b: int)
    ensures (a % TWO_TO_THE_64 + b) % TWO_TO_THE_64 == (a + b) % TWO_TO_THE_64
  {
  }

  function CutMap<K, V>(m: map<K, V>, keep: K -> bool): map<K, V>
  {
    map k | k in m && keep(k) :: m[k]
  }

  function CutSet<K>(s: set<K>, keep: K -> bool): set<K>
  {
    set k | k in s && keep(k)
  }

  /** Cutting all three tables by one test that never separates an item from its keys keeps the agreement. */
  lemma CutKeepsAgreement<K, S, B>(items: map<K, S>, indexed: set<K>, sums: map<K, B>, index: (K, S) -> K,
                                   group: (K, S) -> K, value: S -> int, decode: B -> (nat, nat), keep: K -> bool)
    requires TablesAgree(items, indexed, sums, index, group, value, decode)
    requires forall k :: k in items ==> keep(k) == keep(index(k, items[k])) == keep(group(k, items[k]))
    ensures TablesAgree(CutMap(items, keep), CutSet(indexed, keep), CutMap(sums, keep), index, group, value, decode)
  {
    CutKeys(items, index, keep);
    CutKeys(items, group, keep);
    forall r | r in CutMap(sums, keep) ensures RowAgrees(CutMap(items, keep), group, value, r, decode(sums[r])) {
      assert Row(CutMap(items, keep), group, value, r) == Row(items, group, value, r);
    }
  }

  lemma CutKeys<K, S>(items: map<K, S>, key: (K, S) -> K, keep: K -> bool)
    requires forall k :: k in items ==> keep(k) == keep(key(k, items[k]))
    ensures IndexKeys(CutMap(items, keep), key) == CutSet(IndexKeys(items, key), keep)
  {
    forall x | x in IndexKeys(items, key) && keep(x) ensures x in IndexKeys(CutMap(items, keep), key) {
      var k :| k in items && x == key(k, items[k]);
      assert k in CutMap(items, keep) && x == key(k, CutMap(items, keep)[k]);
    }
  }
}
