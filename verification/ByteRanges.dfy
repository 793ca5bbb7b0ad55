/** The interval set that records which bytes of a body are cached (internal/caches/partial_ranges.go). */
module ByteRanges {
  import opened Wrappers

  /** First and last position, both included. */
  type Span = (int, int)

  function Min(a: int, b: int): int { if a <= b then a else b }

  function Max(a: int, b: int): int { if a >= b then a else b }

  predicate Within(s: Span, p: int) { s.0 <= p <= s.1 }

  ghost predicate Covers(rs: seq<Span>, p: int)
  {
    exists i :: 0 <= i < |rs| && Within(rs[i], p)
  }

  ghost predicate CoversAll(rs: seq<Span>, begin: int, end: int)
  {
    forall p :: begin <= p <= end ==> Covers(rs, p)
  }

  /** Sorted, with at least one uncovered position between neighbours. */
  ghost predicate Normal(rs: seq<Span>)
  {
    && (forall i :: 0 <= i < |rs| ==> rs[i].0 <= rs[i].1)
    && (forall i, j :: 0 <= i < j < |rs| ==> rs[i].1 + 1 < rs[j].0)
  }

  // ---------- the list is determined by what it covers ----------

  lemma CoversTail(rs: seq<Span>, p: int)
    requires Normal(rs) && rs != []
    ensures Covers(rs[1..], p) <==> Covers(rs, p) && p > rs[0].1
  {
    if Covers(rs[1..], p) {
      var i :| 0 <= i < |rs[1..]| && Within(rs[1..][i], p);
      assert rs[1..][i] == rs[i + 1];
      assert Within(rs[i + 1], p);
    }
    if Covers(rs, p) && p > rs[0].1 {
      var i :| 0 <= i < |rs| && Within(rs[i], p);
      assert rs[1..][i - 1] == rs[i];
    }
  }

  ghost predicate SameCover(a: seq<Span>, b: seq<Span>)
  {
    forall p :: Covers(a, p) <==> Covers(b, p)
  }

  lemma HeadFacts(rs: seq<Span>)
    requires Normal(rs) && rs != []
    ensures Covers(rs, rs[0].0) && !Covers(rs, rs[0].1 + 1)
    ensures forall p :: Covers(rs, p) ==> rs[0].0 <= p
    ensures forall p :: Within(rs[0], p) ==> Covers(rs, p)
  {
    assert Within(rs[0], rs[0].0);
    assert forall i :: 0 < i < |rs| ==> rs[0].1 + 1 < rs[i].0;
  }

  lemma SameHead(a: seq<Span>, b: seq<Span>)
    requires Normal(a) && Normal(b) && a != [] && b != [] && SameCover(a, b)
    ensures a[0] == b[0]
  {
    HeadFacts(a);
    HeadFacts(b);
    assert Covers(b, a[0].0) && Covers(a, b[0].0);
    if a[0].1 < b[0].1 {
      assert Within(b[0], a[0].1 + 1);
    } else if b[0].1 < a[0].1 {
      assert Within(a[0], b[0].1 + 1);
    }
  }

  /** Two normal lists that cover the same positions are the same list. */
  lemma {:induction false} NormalIsUnique(a: seq<Span>, b: seq<Span>)
    requires Normal(a) && Normal(b) && SameCover(a, b)
    ensures a == b
  {
    if a == [] {
      if b != [] {
        HeadFacts(b);
      }
    } else if b == [] {
      HeadFacts(a);
    } else {
      SameHead(a, b);
      forall p ensures Covers(a[1..], p) <==> Covers(b[1..], p) {
        CoversTail(a, p);
        CoversTail(b, p);
      }
      NormalIsUnique(a[1..], b[1..]);
      assert a == [a[0]] + a[1..] && b == [b[0]] + b[1..];
    }
  }

  // ---------- adding a span, as a function ----------

  /** The normal list that covers what `rs` covers and [begin, end] as well. */
  function AddSpan(rs: seq<Span>, begin: int, end: int): (r: seq<Span>)
  {
    if rs == [] then [(begin, end)]
    else if rs[0].1 + 1 < begin then [rs[0]] + AddSpan(rs[1..], begin, end)
    else if end + 1 < rs[0].0 then [(begin, end)] + rs
    else AddSpan(rs[1..], Min(begin, rs[0].0), Max(end, rs[0].1))
  }

  lemma CoversCons(s: Span, rs: seq<Span>, p: int)
    ensures Covers([s] + rs, p) <==> Within(s, p) || Covers(rs, p)
  {
    if Within(s, p) {
      assert ([s] + rs)[0] == s;
    }
    if Covers(rs, p) {
      var i :| 0 <= i < |rs| && Within(rs[i], p);
      assert ([s] + rs)[i + 1] == rs[i];
    }
  }

  lemma ConsNormal(s: Span, rest: seq<Span>)
    requires Normal(rest) && s.0 <= s.1 && (rest != [] ==> s.1 + 1 < rest[0].0)
    ensures Normal([s] + rest)
  {
    var r := [s] + rest;
    forall i, j | 0 <= i < j < |r| ensures r[i].1 + 1 < r[j].0 {
      assert rest[0].0 <= rest[j - 1].0;
    }
  }

  lemma {:induction false} AddSpanCovers(rs: seq<Span>, begin: int, end: int)
    requires Normal(rs) && begin <= end
    ensures Normal(AddSpan(rs, begin, end))
    ensures forall p :: Covers(AddSpan(rs, begin, end), p) <==> Covers(rs, p) || begin <= p <= end
    ensures AddSpan(rs, begin, end) != []
    ensures AddSpan(rs, begin, end)[0].0 == if rs == [] then begin else Min(begin, rs[0].0)
  {
    var r := AddSpan(rs, begin, end);
    if rs == [] {
      assert r[0] == (begin, end);
    } else {
      assert rs == [rs[0]] + rs[1..];
      if rs[0].1 + 1 < begin {
        AddSpanCovers(rs[1..], begin, end);
        var rest := AddSpan(rs[1..], begin, end);
        assert rs[0].1 + 2 <= rest[0].0;
        ConsNormal(rs[0], rest);
        forall p ensures Covers(r, p) <==> Covers(rs, p) || begin <= p <= end {
          CoversCons(rs[0], rest, p);
          CoversCons(rs[0], rs[1..], p);
        }
      } else if end + 1 < rs[0].0 {
        ConsNormal((begin, end), rs);
        forall p ensures Covers(r, p) <==> Covers(rs, p) || begin <= p <= end {
          CoversCons((begin, end), rs, p);
        }
      } else {
        AddSpanCovers(rs[1..], Min(begin, rs[0].0), Max(end, rs[0].1));
        forall p ensures Covers(r, p) <==> Covers(rs, p) || begin <= p <= end {
          CoversCons(rs[0], rs[1..], p);
        }
      }
    }
  }

  // ---------- requested ranges ----------

  /** A requested range in terms of a known total: a negative first number asks for a suffix, a negative second one for
      all that follows; an end beyond the total is cut. */
  function Convert(r: Span, total: int): (result: Option<Span>)
    ensures result.Some? ==> 0 <= result.value.0 <= result.value.1 < total
    ensures 0 <= r.0 <= r.1 < total ==> result == Some(r)
    ensures r.0 >= 0 ==> (result.Some? <==> r.0 < total && (r.1 < 0 || r.0 <= r.1))
    ensures r.0 >= 0 && result.Some? ==>
      result.value.0 == r.0 && (result.value.1 == r.1 || (result.value.1 == total - 1 && (r.1 < 0 || total <= r.1)))
    ensures r.0 < 0 ==> result == if -r.0 <= total then Some((total + r.0, total - 1)) else None
  {
    if total <= 0 then None
    else
      var first := if r.0 < 0 then r.0 + total else r.0;
      if first < 0 then None
      else
        var last := if r.0 < 0 || r.1 < 0 || r.1 > total - 1 then total - 1 else r.1;
        if first > last then None else Some((first, last))
  }

  // ---------- runs of additions ----------

  /** One call of Add, whose arguments may come in either order. */
  function AddEither(rs: seq<Span>, s: Span): seq<Span>
  {
    AddSpan(rs, Min(s.0, s.1), Max(s.0, s.1))
  }

  function AddAll(rs: seq<Span>, adds: seq<Span>): seq<Span>
  {
    if adds == [] then rs else AddEither(AddAll(rs, adds[..|adds| - 1]), adds[|adds| - 1])
  }

  ghost predicate Added(adds: seq<Span>, p: int)
  {
    exists k :: 0 <= k < |adds| && Min(adds[k].0, adds[k].1) <= p <= Max(adds[k].0, adds[k].1)
  }

  /** Every run of Add from the empty list stays normal and covers exactly the union of the added spans. */
  lemma {:induction false} AddAllCoversUnion(adds: seq<Span>)
    ensures Normal(AddAll([], adds))
    ensures forall p :: Covers(AddAll([], adds), p) <==> Added(adds, p)
  {
    if adds != [] {
      var init, last := adds[..|adds| - 1], adds[|adds| - 1];
      AddAllCoversUnion(init);
      AddSpanCovers(AddAll([], init), Min(last.0, last.1), Max(last.0, last.1));
      forall p ensures Added(adds, p) <==> Added(init, p) || Min(last.0, last.1) <= p <= Max(last.0, last.1) {
        if Added(init, p) {
          var k :| 0 <= k < |init| && Min(init[k].0, init[k].1) <= p <= Max(init[k].0, init[k].1);
          assert adds[k] == init[k];
        }
        if Added(adds, p) {
          var k :| 0 <= k < |adds| && Min(adds[k].0, adds[k].1) <= p <= Max(adds[k].0, adds[k].1);
          assert k < |init| ==> adds[k] == init[k];
        }
      }
    }
  }

  /** The stored list depends on the union alone: not on order, splitting or repetition. */
  lemma AddAllDependsOnUnion(adds: seq<Span>, others: seq<Span>)
    requires forall p :: Added(adds, p) <==> Added(others, p)
    ensures AddAll([], adds) == AddAll([], others)
  {
    AddAllCoversUnion(adds);
    AddAllCoversUnion(others);
    NormalIsUnique(AddAll([], adds), AddAll([], others));
  }

  // ---------- the pieces of Add and merge ----------

  /** The width test by which merge decides that two spans overlap or touch. */
  predicate Mergeable(a: Span, b: Span)
  {
    (a.1 - a.0) + (b.1 - b.0) >= Max(a.1, b.1) - Min(a.0, b.0) - 1
  }

  ghost predicate CoversBetween(rs: seq<Span>, l: nat, r: nat, p: int)
    requires l <= r <= |rs|
  {
    exists i :: l <= i < r && Within(rs[i], p)
  }

  /** The span `s` has swallowed [begin, end] and the entries l..r of `rs`, and nothing else. */
  ghost predicate Absorbed(rs: seq<Span>, l: nat, r: nat, begin: int, end: int, s: Span)
    requires l <= r <= |rs|
  {
    && s.0 <= begin <= end <= s.1
    && forall p :: Within(s, p) <==> begin <= p <= end || CoversBetween(rs, l, r, p)
  }

  lemma AbsorbLeft(rs: seq<Span>, l: nat, r: nat, begin: int, end: int, s: Span)
    requires 0 < l <= r <= |rs| && Normal(rs) && Absorbed(rs, l, r, begin, end, s)
    requires rs[l - 1].0 <= s.0 <= rs[l - 1].1 + 1
    ensures Absorbed(rs, l - 1, r, begin, end, (rs[l - 1].0, Max(s.1, rs[l - 1].1)))
  {
    var t := (rs[l - 1].0, Max(s.1, rs[l - 1].1));
    forall p ensures CoversBetween(rs, l - 1, r, p) <==> Within(rs[l - 1], p) || CoversBetween(rs, l, r, p) {}
    forall p ensures Within(t, p) <==> Within(s, p) || Within(rs[l - 1], p) {}
  }

  lemma AbsorbRight(rs: seq<Span>, l: nat, r: nat, begin: int, end: int, s: Span)
    requires l <= r < |rs| && Normal(rs) && Absorbed(rs, l, r, begin, end, s)
    requires s.0 <= rs[r].0 <= s.1 + 1
    ensures Absorbed(rs, l, r + 1, begin, end, (s.0, Max(s.1, rs[r].1)))
  {
    var t := (s.0, Max(s.1, rs[r].1));
    forall p ensures CoversBetween(rs, l, r + 1, p) <==> Within(rs[r], p) || CoversBetween(rs, l, r, p) {}
    forall p ensures Within(t, p) <==> Within(s, p) || Within(rs[r], p) {}
  }

  /** Overwriting the entry before `s` and removing `s`. */
  lemma CloseUp(rs: seq<Span>, l: nat, i: nat, r: nat, s: Span, merged: Span)
    requires i == l + 1 <= r <= |rs|
    ensures var list := (rs[..i] + [s] + rs[r..])[l := merged]; list[..i] + list[i + 1..] == rs[..l] + [merged] + rs[r..]
  {
  }

  /** Removing `s` and overwriting the entry after it. */
  lemma DropNext(rs: seq<Span>, i: nat, r: nat, s: Span, merged: Span)
    requires i <= r < |rs|
    ensures var list := rs[..i] + [s] + rs[r..]; (list[..i] + list[i + 1..])[i := merged] == rs[..i] + [merged] + rs[r + 1..]
  {
    assert rs[r..] == [rs[r]] + rs[r + 1..];
  }

  lemma SpliceCovers(rs: seq<Span>, l: nat, r: nat, begin: int, end: int, s: Span, t: seq<Span>, p: int)
    requires l <= r <= |rs| && Absorbed(rs, l, r, begin, end, s)
    requires t == rs[..l] + [s] + rs[r..]
    ensures Covers(t, p) <==> Covers(rs, p) || begin <= p <= end
  {
    assert t[l] == s;
    assert forall i :: 0 <= i < l ==> t[i] == rs[i];
    assert forall i :: r <= i < |rs| ==> t[i - r + l + 1] == rs[i];
    if Covers(rs, p) {
      var i :| 0 <= i < |rs| && Within(rs[i], p);
      if i < l {
        assert Within(t[i], p);
      } else if i < r {
        assert CoversBetween(rs, l, r, p);
        assert Within(t[l], p);
      } else {
        assert Within(t[i - r + l + 1], p);
      }
    }
    if begin <= p <= end {
      assert Within(t[l], p);
    }
    if Covers(t, p) {
      var j :| 0 <= j < |t| && Within(t[j], p);
      if j < l {
        assert Within(rs[j], p);
      } else if j > l {
        assert Within(rs[j - l - 1 + r], p);
      }
    }
  }

  lemma SpliceNormal(rs: seq<Span>, l: nat, r: nat, s: Span)
    requires l <= r <= |rs| && Normal(rs) && s.0 <= s.1
    requires l > 0 ==> rs[l - 1].1 + 1 < s.0
    requires r < |rs| ==> s.1 + 1 < rs[r].0
    ensures Normal(rs[..l] + [s] + rs[r..])
  {
    forall i | 0 <= i < l ensures rs[i].1 + 1 < s.0 {
      assert i < l - 1 ==> rs[i].1 + 1 < rs[l - 1].0;
    }
    forall i | r <= i < |rs| ensures s.1 + 1 < rs[i].0 {
      assert r < i ==> rs[r].1 + 1 < rs[i].0;
    }
  }

  /** Replacing the swallowed entries by the span that swallowed them is AddSpan, once nothing touches it any more. */
  lemma SpliceIsAddSpan(rs: seq<Span>, l: nat, r: nat, begin: int, end: int, s: Span)
    requires l <= r <= |rs| && Normal(rs) && Absorbed(rs, l, r, begin, end, s)
    requires l > 0 ==> rs[l - 1].1 + 1 < s.0
    requires r < |rs| ==> s.1 + 1 < rs[r].0
    ensures rs[..l] + [s] + rs[r..] == AddSpan(rs, begin, end)
  {
    var t := rs[..l] + [s] + rs[r..];
    SpliceNormal(rs, l, r, s);
    AddSpanCovers(rs, begin, end);
    forall p ensures Covers(t, p) <==> Covers(AddSpan(rs, begin, end), p) {
      SpliceCovers(rs, l, r, begin, end, s, t, p);
    }
    NormalIsUnique(t, AddSpan(rs, begin, end));
  }

  // ---------- what the queries mean on a normal list ----------

  /** Some one entry holds the whole of [begin, end]. */
  ghost predicate HoldsWhole(rs: seq<Span>, begin: int, end: int)
  {
    exists i :: 0 <= i < |rs| && rs[i].0 <= begin && end <= rs[i].1
  }

  lemma {:induction false} StaysInEntry(rs: seq<Span>, i: nat, begin: int, end: int)
    requires Normal(rs) && i < |rs| && Within(rs[i], begin) && begin <= end
    requires CoversAll(rs, begin, end)
    ensures end <= rs[i].1
    decreases end - begin
  {
    if begin < end {
      StaysInEntry(rs, i, begin, end - 1);
      assert Covers(rs, end);
    }
  }

  lemma HoldsWholeIsCoverage(rs: seq<Span>, begin: int, end: int)
    requires Normal(rs) && begin <= end
    ensures HoldsWhole(rs, begin, end) <==> CoversAll(rs, begin, end)
  {
    if CoversAll(rs, begin, end) {
      assert Covers(rs, begin);
      var i :| 0 <= i < |rs| && Within(rs[i], begin);
      StaysInEntry(rs, i, begin, end);
    }
    if HoldsWhole(rs, begin, end) {
      var i :| 0 <= i < |rs| && rs[i].0 <= begin && end <= rs[i].1;
      forall p | begin <= p <= end ensures Covers(rs, p) {
        assert Within(rs[i], p);
      }
    }
  }

  /** [begin, last] is the longest covered prefix of [begin, end]. */
  ghost predicate LongestPrefix(rs: seq<Span>, begin: int, end: int, last: int)
  {
    && begin <= last <= end
    && CoversAll(rs, begin, last)
    && (last == end || !Covers(rs, last + 1))
  }

  /** On a normal list only one entry can hold a position and its successor. */
  lemma SuccessorSharesEntry(rs: seq<Span>, p: int)
    requires Normal(rs)
    ensures Covers(rs, p) && Covers(rs, p + 1) <==> exists i :: 0 <= i < |rs| && rs[i].0 <= p && rs[i].1 > p
  {
    if Covers(rs, p) && Covers(rs, p + 1) {
      var i :| 0 <= i < |rs| && Within(rs[i], p);
      var j :| 0 <= j < |rs| && Within(rs[j], p + 1);
      assert i == j;
    }
    if i :| 0 <= i < |rs| && rs[i].0 <= p && rs[i].1 > p {
      assert Within(rs[i], p) && Within(rs[i], p + 1);
    }
  }

  function Last(rs: seq<Span>): int { if |rs| > 0 then rs[|rs| - 1].1 else 0 }

  predicate Whole(rs: seq<Span>, bodySize: int)
  {
    |rs| == 1 && rs[0].0 == 0 && rs[0].1 == bodySize - 1
  }

  class PartialRanges {
    var version: int
    var ranges: seq<Span>
    var bodySize: int
    var contentMD5: string

    constructor ()
      ensures version == 2 && ranges == [] && bodySize == 0 && contentMD5 == ""
    {
      version, ranges, bodySize, contentMD5 := 2, [], 0, "";
    }

    ghost predicate Valid()
      reads this`ranges
    {
      Normal(ranges)
    }

    method Add(begin: int, end: int)
      requires Valid()
      modifies this`ranges
      ensures Valid()
      ensures ranges == AddSpan(old(ranges), Min(begin, end), Max(begin, end))
    {
      var b, e := begin, end;
      if b > e {
        b, e := e, b;
      }
      ghost var rs := ranges;
      AddSpanCovers(rs, b, e);
      if |ranges| == 0 {
        ranges := [(b, e)];
        return;
      }
      var index := 0;
      while index < |ranges| && !(ranges[index].0 > b || (ranges[index].0 == b && ranges[index].1 >= e))
        invariant 0 <= index <= |ranges|
        invariant forall i :: 0 <= i < index ==> ranges[i].0 <= b
      {
        index := index + 1;
      }
      ranges := ranges[..index] + [(b, e)] + ranges[index..];
      assert Absorbed(rs, index, index, b, e, (b, e));
      Merge(index, rs, b, e);
    }

    method Merge(index: nat, ghost rs: seq<Span>, ghost begin: int, ghost end: int)
      requires Normal(rs) && index <= |rs| && begin <= end
      requires ranges == rs[..index] + [(begin, end)] + rs[index..]
      requires forall i :: 0 <= i < index ==> rs[i].0 <= begin
      requires forall i :: index <= i < |rs| ==> begin <= rs[i].0
      modifies this`ranges
      ensures ranges == AddSpan(rs, begin, end)
    {
      var i, s := MergeForward(index, rs, begin, end);
      MergeBackward(i, index, rs, begin, end, s);
    }

    /** Swallows the entries before the new one that it touches. */
    method MergeForward(index: nat, ghost rs: seq<Span>, ghost begin: int, ghost end: int) returns (i: nat, ghost s: Span)
      requires Normal(rs) && index <= |rs| && begin <= end
      requires ranges == rs[..index] + [(begin, end)] + rs[index..]
      requires forall k :: 0 <= k < index ==> rs[k].0 <= begin
      modifies this`ranges
      ensures i <= index && ranges == rs[..i] + [s] + rs[index..] && Absorbed(rs, i, index, begin, end, s)
      ensures i > 0 ==> rs[i - 1].1 + 1 < s.0
    {
      i, s := index, (begin, end);
      var merging := true;
      while i >= 1 && merging
        invariant i <= index && ranges == rs[..i] + [s] + rs[index..]
        invariant Absorbed(rs, i, index, begin, end, s)
        invariant forall k :: 0 <= k < i ==> rs[k].0 <= s.0
        invariant !merging ==> i >= 1 && rs[i - 1].1 + 1 < s.0
        decreases i, merging
      {
        var curr, prev := ranges[i], ranges[i - 1];
        if Mergeable(curr, prev) {
          AbsorbLeft(rs, i, index, begin, end, s);
          prev := (Min(curr.0, prev.0), Max(curr.1, prev.1));
          CloseUp(rs, i - 1, i, index, s, prev);
          s := prev;
          ranges := ranges[i - 1 := prev];
          ranges := ranges[..i] + ranges[i + 1..];
          i := i - 1;
        } else {
          merging := false;
        }
      }
    }

    /** Then the entries after it. */
    method MergeBackward(i: nat, ghost index: nat, ghost rs: seq<Span>, ghost begin: int, ghost end: int, ghost first: Span)
      requires Normal(rs) && i <= index <= |rs|
      requires ranges == rs[..i] + [first] + rs[index..] && Absorbed(rs, i, index, begin, end, first)
      requires i > 0 ==> rs[i - 1].1 + 1 < first.0
      requires forall k :: index <= k < |rs| ==> begin <= rs[k].0
      modifies this`ranges
      ensures ranges == AddSpan(rs, begin, end)
    {
      ghost var r, s := index, first;
      var merging := true;
      while i < |ranges| - 1 && merging
        invariant index <= r <= |rs| && ranges == rs[..i] + [s] + rs[r..]
        invariant Absorbed(rs, i, r, begin, end, s) && s.0 == first.0
        invariant !merging ==> r < |rs| && s.1 + 1 < rs[r].0
        decreases |rs| - r, merging
      {
        var curr, next := ranges[i], ranges[i + 1];
        assert curr == s && next == rs[r];
        if Mergeable(curr, next) {
          AbsorbRight(rs, i, r, begin, end, s);
          curr := (Min(curr.0, next.0), Max(curr.1, next.1));
          DropNext(rs, i, r, s, curr);
          s, r := curr, r + 1;
          ranges := ranges[..i] + ranges[i + 1..];
          ranges := ranges[i := curr];
        } else {
          merging := false;
        }
      }
      SpliceIsAddSpan(rs, i, r, begin, end, s);
    }

    method Contains(begin: int, end: int) returns (ok: bool)
      ensures ok <==> HoldsWhole(ranges, begin, end)
      ensures Valid() && begin <= end ==> (ok <==> CoversAll(ranges, begin, end))
    {
      if Valid() && begin <= end {
        HoldsWholeIsCoverage(ranges, begin, end);
      }
      for k := 0 to |ranges|
        invariant forall i :: 0 <= i < k ==> !(ranges[i].0 <= begin && end <= ranges[i].1)
      {
        if ranges[k].0 <= begin && ranges[k].1 >= end {
          return true;
        }
      }
      return false;
    }

    method Nearest(begin: int, end: int) returns (r: Span, ok: bool)
      requires Valid() && begin <= end
      ensures ok <==> Covers(ranges, begin) && Covers(ranges, begin + 1)
      ensures ok ==> r.0 == begin && LongestPrefix(ranges, begin, end, r.1)
    {
      SuccessorSharesEntry(ranges, begin);
      r := (0, 0);
      for k := 0 to |ranges|
        invariant forall i :: 0 <= i < k ==> !(ranges[i].0 <= begin && ranges[i].1 > begin)
      {
        if ranges[k].0 <= begin && ranges[k].1 > begin {
          r := (begin, Min(end, ranges[k].1));
          assert HoldsWhole(ranges, begin, r.1);
          HoldsWholeIsCoverage(ranges, begin, r.1);
          return r, true;
        }
      }
      return r, false;
    }

    method FindRangeAtPosition(position: int) returns (r: Span, ok: bool)
      requires Valid()
      ensures ok <==> position >= 0 && Covers(ranges, position) && Covers(ranges, position + 1)
      ensures ok ==> r.0 == position && position < r.1 && CoversAll(ranges, position, r.1) && !Covers(ranges, r.1 + 1)
    {
      SuccessorSharesEntry(ranges, position);
      r := (0, 0);
      if |ranges| == 0 || position < 0 {
        return r, false;
      }
      for k := 0 to |ranges|
        invariant forall i :: 0 <= i < k ==> !(ranges[i].0 <= position && ranges[i].1 > position)
      {
        if ranges[k].0 <= position && ranges[k].1 > position {
          r := (position, ranges[k].1);
          assert HoldsWhole(ranges, position, r.1);
          HoldsWholeIsCoverage(ranges, position, r.1);
          return r, true;
        }
      }
      return r, false;
    }

    /** The last covered position, or 0. */
    function MaxPosition(): (m: int)
      reads this`ranges
      ensures m == Last(ranges)
      ensures Valid() ==> (forall p :: Covers(ranges, p) ==> p <= m) && if ranges == [] then m == 0 else Covers(ranges, m)
    {
      if |ranges| > 0 then
        assert Valid() ==> forall i :: 0 <= i < |ranges| ==> ranges[i].1 <= ranges[|ranges| - 1].1;
        assert Valid() ==> Within(ranges[|ranges| - 1], ranges[|ranges| - 1].1);
        ranges[|ranges| - 1].1
      else 0
    }

    predicate IsCompleted()
      reads this
    {
      Whole(ranges, bodySize)
    }
  }

  /** One entry for the whole body: exactly the positions of a non-empty body are covered. */
  lemma WholeIsFullCoverage(rs: seq<Span>, bodySize: int)
    requires Normal(rs)
    ensures Whole(rs, bodySize) <==> bodySize > 0 && forall p :: Covers(rs, p) <==> 0 <= p < bodySize
  {
    var whole := [(0, bodySize - 1)];
    forall p ensures bodySize > 0 ==> (Covers(whole, p) <==> 0 <= p < bodySize) {
      assert whole[0] == (0, bodySize - 1);
    }
    if Whole(rs, bodySize) {
      assert rs == whole;
    } else if bodySize > 0 && forall p :: Covers(rs, p) <==> 0 <= p < bodySize {
      NormalIsUnique(rs, whole);
    }
  }
}
