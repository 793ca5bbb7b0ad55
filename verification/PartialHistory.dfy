/** Whole histories of one partial cache file: sessions of a writer, closed and opened again. */
module PartialHistory {
  import opened ByteFile
  import opened Bytes
  import opened ByteRanges
  import opened ByteRangesText
  import opened CacheFormat
  import opened PartialFile
  import opened PartialServe
  import opened Wrappers

  /** What one response brings: its digest, its header, a header line from its first part if it has several, its length if it says
      one, and slices (offset, length) of the origin's body. */
  datatype Session = Session(expiredAt: nat, status: int, declaredHeader: int, declaredBody: int, contentMD5: string,
                             header: ByteString, contentType: ByteString, bodyLength: nat, writes: seq<(nat, nat)>,
                             origin: ByteString)

  predicate Fits(s: Session)
  {
    var size := |s.origin|;
    && 0 < |s.header| + |s.contentType| < TWO_TO_THE_32
    && (s.declaredBody > 0 ==> s.declaredBody == size)
    && (s.bodyLength == 0 || s.bodyLength == size)
    && forall k :: 0 <= k < |s.writes| ==> s.writes[k].0 + s.writes[k].1 <= size
  }

  /** What every session leaves behind. */
  ghost predicate Kept(s: Stored, origin: ByteString)
  {
    && Faithful(s, origin)
    && Usable(s)
    && '\n' !in s.ranges.contentMD5
    && (s.ranges.bodySize == 0 || s.ranges.bodySize == |origin|)
    && (BodyLengthOf(s.data) == 0 || BodyLengthOf(s.data) == |origin|)
  }

  /** A digest that the line format can take. */
  predicate IsRecordable(contentMD5: string)
  {
    '\n' !in contentMD5 && |contentMD5| <= 128
  }

  /** The file is begun anew, with no old ranges to keep. */
  predicate BeginsAfresh(existing: Option<Stored>, s: Session)
  {
    existing.None? || (OtherLength(existing.value, s.declaredBody) && existing.value.ranges.ranges == [])
  }

  /** Otherwise the digest is compared with the recorded one, for ranges of version 2 or later. */
  predicate IsTurnedAway(existing: Option<Stored>, s: Session)
  {
    !BeginsAfresh(existing, s) && existing.value.ranges.version >= 2 && existing.value.ranges.contentMD5 != s.contentMD5
  }

  /** The length that the writer is opened with is set on it too. */
  predicate SaysItsLength(s: Session)
  {
    s.declaredBody > 0 ==> s.bodyLength > 0
  }

  /** What is kept is of the body that this session brings, unless the digests tell them apart. */
  ghost predicate IsToldApart(existing: Option<Stored>, s: Session, was: ByteString)
  {
    existing.Some? ==>
      && Kept(existing.value, was)
      && (|| was == s.origin
          || (existing.value.ranges.version >= 2 && existing.value.ranges.contentMD5 != s.contentMD5 && SaysItsLength(s)))
  }

  /** Opening, and the comparison of digests. A session that is turned away discards the file. */
  method OpenSession(key: string, existing: Option<Stored>, s: Session, disk: DiskSpeed, ghost was: ByteString)
    returns (w: PartialFileWriter, ok: bool)
    requires IsToldApart(existing, s, was) && Fits(s)
    ensures ok <==> !IsTurnedAway(existing, s)
    ensures fresh(w) && fresh(w.rawWriter) && fresh(w.ranges) && w.disk == disk
    ensures ok ==> w.held == s.origin && w.Valid() && w.RecordKnown() && !w.Shifted() && IsAnnounced(w, w.ranges.ranges)
    ensures ok ==> (w.isNew <==> BeginsAfresh(existing, s))
    ensures ok && w.isNew ==> w.header == s.header + s.contentType && w.headerSize == |s.header| + |s.contentType|
    ensures ok && w.isNew ==> w.expiresAt == s.expiredAt && w.status == if 100 <= s.status <= 999 then s.status else 200
    ensures ok && !w.isNew ==> w.rawWriter.data == existing.value.data && SameLengths(w.record, existing.value.data)
    ensures ok ==> SnapshotOf(w.ranges) == SnapshotAtStart(existing, s)
    ensures ok ==> w.bodySize == s.bodyLength
  {
    w, ok := OpenAndCompare(key, existing, s, disk, was);
    if ok {
      PutHeader(w, s);
      w.SetBodyLength(s.bodyLength);
    }
  }

  /** The ranges that a session goes on from: those that are kept; a session that begins afresh records its digest. */
  function SnapshotAtStart(existing: Option<Stored>, s: Session): Snapshot
  {
    var ranges := if existing.Some? then existing.value.ranges else INITIAL;
    if BeginsAfresh(existing, s) && s.contentMD5 != "" && IsRecordable(s.contentMD5)
    then ranges.(contentMD5 := s.contentMD5) else ranges
  }

  method OpenAndCompare(key: string, existing: Option<Stored>, s: Session, disk: DiskSpeed, ghost was: ByteString)
    returns (w: PartialFileWriter, ok: bool)
    requires IsToldApart(existing, s, was) && Fits(s)
    ensures ok <==> !IsTurnedAway(existing, s)
    ensures fresh(w) && fresh(w.rawWriter) && fresh(w.ranges) && w.disk == disk
    ensures ok ==> w.held == s.origin && w.Valid() && w.RecordKnown() && !w.Shifted()
    ensures ok ==> IsAnnounced(w, w.ranges.ranges)
    ensures ok ==> (w.isNew <==> BeginsAfresh(existing, s))
    ensures ok && w.isNew ==> w.AtHeaderEnd() && w.EndsWithHeader() && w.headerSize == 0
    ensures ok && w.isNew ==> w.expiresAt == s.expiredAt && w.status == if 100 <= s.status <= 999 then s.status else 200
    ensures ok && !w.isNew ==> w.rawWriter.data == existing.value.data && SameLengths(w.record, existing.value.data)
    ensures ok ==> SnapshotOf(w.ranges) == SnapshotAtStart(existing, s)
  {
    ghost var held := if BeginsAfresh(existing, s) then s.origin else was;
    w := OpenPartialWriter(key, existing, s.expiredAt, s.status, s.declaredHeader, s.declaredBody, disk, held);
    ok := true;
    if w.IsNew() {
      if |s.contentMD5| > 0 {
        w.SetContentMD5(s.contentMD5);
      }
    } else if w.ranges.version >= 2 && w.ranges.contentMD5 != s.contentMD5 {
      ok := false;
    }
    NothingUnseen(w.ranges.ranges);
  }

  /** The header, and the line that the first of several parts adds to it; an old file keeps its own. */
  method PutHeader(w: PartialFileWriter, s: Session)
    requires w.InPlace() && w.RecordKnown()
    requires w.isNew ==> w.AtHeaderEnd() && w.EndsWithHeader() && w.headerSize == 0
    modifies w`headerSize, w`header, w`record, w`recorded, w.rawWriter
    ensures w.InPlace() && w.RecordKnown() && (old(w.Valid()) ==> w.Valid())
    ensures w.isNew ==> w.header == s.header + s.contentType && w.EndsWithHeader()
    ensures !w.isNew ==> w.rawWriter.data == old(w.rawWriter.data) && w.record == old(w.record)
  {
    PutFirst(w, s.header);
    if w.isNew && s.contentType != [] {
      AppendLine(w, s.contentType);
    } else {
      assert s.contentType == [] ==> s.header + s.contentType == s.header;
    }
  }

  method PutFirst(w: PartialFileWriter, data: ByteString)
    requires w.InPlace() && w.RecordKnown()
    requires w.isNew ==> w.AtHeaderEnd() && w.EndsWithHeader() && w.headerSize == 0
    modifies w`headerSize, w`header, w`record, w`recorded, w.rawWriter
    ensures w.InPlace() && w.RecordKnown() && (old(w.Valid()) ==> w.Valid())
    ensures w.isNew ==> w.AtHeaderEnd() && w.EndsWithHeader() && w.header == data
    ensures !w.isNew ==> w.rawWriter.data == old(w.rawWriter.data) && w.record == old(w.record)
  {
    ghost var before := w.rawWriter.data;
    if w.isNew {
      OverlayAtEnd(before, data);
    }
    w.WriteHeader(data);
    if w.isNew {
      assert w.rawWriter.data == before + data;
      assert w.rawWriter.data[SIZE_META..SIZE_META + |data|] == data;
    }
  }

  method AppendLine(w: PartialFileWriter, line: ByteString)
    requires w.InPlace() && w.RecordKnown() && w.AtHeaderEnd() && w.EndsWithHeader()
    modifies w`headerSize, w`header, w`record, w`recorded, w.rawWriter
    ensures w.InPlace() && w.RecordKnown() && (old(w.Valid()) ==> w.Valid())
    ensures w.header == old(w.header) + line && w.EndsWithHeader()
  {
    w.AppendHeader(line);
  }

  predicate InWrite(write: (nat, nat), p: int)
  {
    write.0 <= p < write.0 + write.1
  }

  /** The positions of a write. */
  ghost function Positions(write: (nat, nat)): iset<int>
  {
    iset p | InWrite(write, p)
  }

  /** `after` covers what `rs` covers. */
  ghost predicate Grows(rs: seq<Span>, after: seq<Span>)
  {
    forall p :: Covers(rs, p) ==> Covers(after, p)
  }

  /** Not so far beyond the covered part that a write of it would be postponed. */
  predicate IsNear(write: (nat, nat), last: int, disk: DiskSpeed)
  {
    write.0 <= last + MaxExtendSize(disk)
  }

  /** The last position that is covered for certain after these writes, each of which counts if it is near enough to
      what the ones before it have covered. */
  function Reach(last: int, writes: seq<(nat, nat)>, disk: DiskSpeed): (r: int)
    ensures last <= r
  {
    if writes == [] then last
    else
      var r, write := Reach(last, writes[..|writes| - 1], disk), writes[|writes| - 1];
      if IsNear(write, r, disk) && write.1 > 0 then Max(r, write.0 + write.1 - 1) else r
  }

  /** On every disk 32 MiB are near, and more than 128 MiB are not. */
  lemma NearOnEveryDisk(write: (nat, nat), last: int, disk: DiskSpeed)
    ensures write.0 - last <= 33554432 ==> IsNear(write, last, disk)
    ensures IsNear(write, last, disk) ==> write.0 - last <= 134217728
  {
  }

  lemma {:induction false} ReachGrows(a: int, b: int, writes: seq<(nat, nat)>, disk: DiskSpeed)
    requires a <= b
    ensures Reach(a, writes, disk) <= Reach(b, writes, disk)
  {
    if writes != [] {
      ReachGrows(a, b, writes[..|writes| - 1], disk);
    }
  }

  ghost predicate IsKept(rs: seq<Span>, write: (nat, nat))
  {
    CoversAll(rs, write.0, write.0 + write.1 - 1)
  }

  /** What one write does to the ranges. */
  ghost predicate Extends(rs: seq<Span>, after: seq<Span>, write: (nat, nat), disk: DiskSpeed)
  {
    && Grows(rs, after) && Last(rs) <= Last(after)
    && (IsNear(write, Last(rs), disk) ==> IsKept(after, write) && (write.1 > 0 ==> write.0 + write.1 - 1 <= Last(after)))
  }

  /** Of the first `k` writes, those that began near enough to what was covered by then are covered. */
  ghost predicate TimelyAreKept(rs: seq<Span>, last: int, writes: seq<(nat, nat)>, k: nat, disk: DiskSpeed)
    requires k <= |writes|
  {
    && Reach(last, writes[..k], disk) <= Last(rs)
    && forall j :: 0 <= j < k && IsNear(writes[j], Reach(last, writes[..j], disk), disk) ==> IsKept(rs, writes[j])
  }

  lemma OneMoreIsKept(rs: seq<Span>, after: seq<Span>, last: int, writes: seq<(nat, nat)>, k: nat, disk: DiskSpeed)
    requires k < |writes| && TimelyAreKept(rs, last, writes, k, disk) && Extends(rs, after, writes[k], disk)
    ensures TimelyAreKept(after, last, writes, k + 1, disk)
  {
    assert writes[..k + 1][..k] == writes[..k];
    forall j | 0 <= j < k + 1 && IsNear(writes[j], Reach(last, writes[..j], disk), disk) ensures IsKept(after, writes[j]) {
      assert j < k ==> IsKept(rs, writes[j]);
    }
  }

  /** Slices of the origin, in any order, repeated or overlapping: nothing covered is lost, and every slice that begins
      near enough to what is covered when it is written is covered at the end. */
  method WriteSlices(w: PartialFileWriter, writes: seq<(nat, nat)>, origin: ByteString, ghost base: seq<Span>)
    requires w.Valid() && w.RecordKnown() && w.held == origin && IsAnnounced(w, base)
    requires forall k :: 0 <= k < |writes| ==> writes[k].0 + writes[k].1 <= |origin|
    modifies w`bodyOffset, w`writtenBytes, w`published, w`held, w.rawWriter`data, w.ranges`ranges, w.ranges`bodySize
    ensures w.Valid() && w.RecordKnown() && w.held == origin && IsAnnounced(w, base)
    ensures Grows(old(w.ranges.ranges), w.ranges.ranges)
    ensures TimelyAreKept(w.ranges.ranges, old(Last(w.ranges.ranges)), writes, |writes|, w.disk)
    ensures !w.isNew ==> w.record == old(w.record)
    ensures w.ranges.bodySize == old(w.ranges.bodySize) || w.ranges.bodySize == w.bodySize
  {
    ghost var last := Last(w.ranges.ranges);
    for k := 0 to |writes|
      invariant w.Valid() && w.held == origin && IsAnnounced(w, base)
      invariant Grows(old(w.ranges.ranges), w.ranges.ranges)
      invariant TimelyAreKept(w.ranges.ranges, last, writes, k, w.disk)
      invariant w.ranges.bodySize == old(w.ranges.bodySize) || w.ranges.bodySize == w.bodySize
    {
      ghost var rs := w.ranges.ranges;
      WriteSlice(w, writes[k].0, origin[writes[k].0..writes[k].0 + writes[k].1], origin, base);
      OneMoreIsKept(rs, w.ranges.ranges, last, writes, k, w.disk);
    }
  }

  method WriteSlice(w: PartialFileWriter, offset: nat, data: ByteString, ghost origin: ByteString, ghost base: seq<Span>)
    requires IsAnnounced(w, base)
    requires w.Valid() && w.held == origin && offset + |data| <= |origin| && data == origin[offset..offset + |data|]
    modifies w`bodyOffset, w`writtenBytes, w`published, w`held, w.rawWriter`data, w.ranges`ranges, w.ranges`bodySize
    ensures w.Valid() && w.held == origin && IsAnnounced(w, base)
    ensures Extends(old(w.ranges.ranges), w.ranges.ranges, (offset, |data|), w.disk)
    ensures w.ranges.bodySize == old(w.ranges.bodySize) || w.ranges.bodySize == w.bodySize
  {
    ghost var rs, count := w.ranges.ranges, w.writtenBytes;
    ghost var seen := if w.published.Some? then w.published.value.ranges else base;
    ghost var needless, skipped := PutSlice(w, offset, data, origin);
    SliceExtends(rs, w.ranges.ranges, offset, |data|, needless, skipped, w.disk);
    FewMore(rs, seen, count, (offset, |data|), skipped);
    NothingUnseen(w.ranges.ranges);
  }

  /** What a write makes of the ranges. */
  function RangesAfter(rs: seq<Span>, write: (nat, nat), skipped: bool): seq<Span>
  {
    if skipped then rs else AddSpan(rs, write.0, write.0 + write.1 - 1)
  }

  ghost predicate Lengthened(file: ByteString, after: ByteString)
  {
    |file| <= |after| && Prolonged(file, after, |after| - |file|)
  }

  // ---------- what others can read meanwhile ----------

  ghost predicate IsButFor(rs: seq<Span>, seen: seq<Span>, few: set<int>)
  {
    forall p :: Covers(rs, p) ==> Covers(seen, p) || p in few
  }

  /** What is covered is also in `seen`, but for at most so many positions. */
  ghost predicate AllButFew(rs: seq<Span>, seen: seq<Span>, count: nat)
  {
    exists few :: IsButFor(rs, seen, few) && |few| <= count
  }

  /** What is covered has been stored for others, or was so when the file was opened, but for the bytes counted since,
      which are at most 1 MiB. */
  ghost predicate IsAnnounced(w: PartialFileWriter, base: seq<Span>)
    reads w`writtenBytes, w`published, w.ranges`ranges
  {
    && AllButFew(w.ranges.ranges, if w.published.Some? then w.published.value.ranges else base, w.writtenBytes)
    && w.writtenBytes <= 1048576
  }

  lemma NothingUnseen(rs: seq<Span>)
    ensures AllButFew(rs, rs, 0)
  {
    assert IsButFor(rs, rs, {});
  }

  lemma {:induction false} Interval(first: int, length: nat) returns (positions: set<int>)
    ensures |positions| == length && forall p :: p in positions <==> first <= p < first + length
  {
    if length == 0 {
      positions := {};
    } else {
      positions := Interval(first, length - 1);
      positions := positions + {first + length - 1};
    }
  }

  lemma FewMore(rs: seq<Span>, seen: seq<Span>, count: nat, write: (nat, nat), skipped: bool)
    requires Normal(rs) && AllButFew(rs, seen, count) && (write.1 == 0 ==> skipped)
    ensures AllButFew(RangesAfter(rs, write, skipped), seen, if skipped then count else count + write.1)
  {
    var few :| IsButFor(rs, seen, few) && |few| <= count;
    if !skipped {
      var more := Interval(write.0, write.1);
      AddSpanCovers(rs, write.0, write.0 + write.1 - 1);
      assert IsButFor(RangesAfter(rs, write, skipped), seen, few + more);
      UnionSize(few, more);
    }
  }

  lemma UnionSize(a: set<int>, b: set<int>)
    ensures |a + b| <= |a| + |b|
  {
    assert a + b == a + (b - a) && b == (b - a) + (b * a);
    assert |b| == |b - a| + |b * a|;
  }

  /** A slice of the origin written into any file that stands for the origin. */
  method PutSlice(w: PartialFileWriter, offset: nat, data: ByteString, ghost origin: ByteString)
    returns (ghost needless: bool, ghost skipped: bool)
    requires w.ranges.Valid() && w.held == origin && offset + |data| <= |origin| && data == origin[offset..offset + |data|]
    modifies w`bodyOffset, w`writtenBytes, w`published, w`held, w.rawWriter`data, w.ranges`ranges, w.ranges`bodySize
    ensures w.ranges.Valid() && w.held == origin && w.Base() == old(w.Base())
    ensures (old(w.InPlace()) ==> w.InPlace()) && (old(w.Valid()) ==> w.Valid())
    ensures needless == old(w.Needless(offset, |data|)) && (needless || data == [] ==> skipped)
    ensures skipped && !needless ==> !IsNear((offset, |data|), Last(old(w.ranges.ranges)), w.disk)
    ensures w.ranges.ranges == RangesAfter(old(w.ranges.ranges), (offset, |data|), skipped)
    ensures needless ==> w.rawWriter.data == old(w.rawWriter.data)
    ensures if skipped then Lengthened(old(w.rawWriter.data), w.rawWriter.data)
            else w.rawWriter.data == Overlay(old(w.rawWriter.data), old(w.Base()) + offset, data)
    ensures w.ranges.bodySize == old(w.ranges.bodySize) || w.ranges.bodySize == w.bodySize
    ensures var sum := old(w.writtenBytes) + if skipped then 0 else |data|;
      if !skipped && sum > 1048576
      then w.writtenBytes == 0 && w.published.Some? && w.published.value.ranges == w.ranges.ranges
      else w.writtenBytes == sum && w.published == old(w.published)
  {
    needless, skipped := w.Needless(offset, |data|), w.Skipped(offset, |data|);
    SliceOverItself(origin, offset, data);
    w.WriteAt(offset, data);
  }

  /** What one write makes of the ranges, whether or not it was needed. */
  lemma SliceExtends(rs: seq<Span>, after: seq<Span>, offset: nat, length: nat, needless: bool, skipped: bool, disk: DiskSpeed)
    requires Normal(rs) && (length == 0 ==> skipped)
    requires after == RangesAfter(rs, (offset, length), skipped)
    requires needless ==> length == 0 || HoldsWhole(rs, offset, offset + length - 1)
    requires skipped && !needless ==> !IsNear((offset, length), Last(rs), disk)
    ensures Extends(rs, after, (offset, length), disk)
  {
    if !skipped {
      AddedIsKept(rs, offset, length);
      LastGrows(rs, after);
      KeptIsReached(after, offset, length);
    } else if length > 0 && needless {
      HoldsWholeIsCoverage(rs, offset, offset + length - 1);
      KeptIsReached(rs, offset, length);
    }
  }

  lemma KeptIsReached(rs: seq<Span>, offset: nat, length: nat)
    requires Normal(rs) && length > 0 && IsKept(rs, (offset, length))
    ensures offset + length - 1 <= Last(rs)
  {
    assert Covers(rs, offset + length - 1);
    LastIsCovered(rs);
  }

  lemma AddedIsKept(rs: seq<Span>, offset: nat, length: nat)
    requires Normal(rs) && length > 0
    ensures var after := AddSpan(rs, offset, offset + length - 1);
      Normal(after) && Grows(rs, after) && IsKept(after, (offset, length)) && Last(after) >= 0
  {
    var after := AddSpan(rs, offset, offset + length - 1);
    AddSpanCovers(rs, offset, offset + length - 1);
    LastIsCovered(after);
    assert Covers(after, offset);
  }

  lemma LastGrows(rs: seq<Span>, after: seq<Span>)
    requires Normal(rs) && Normal(after) && Grows(rs, after) && Last(after) >= 0
    ensures Last(rs) <= Last(after)
  {
    if rs != [] {
      LastIsCovered(rs);
      assert Covers(after, Last(rs));
      LastIsCovered(after);
    }
  }

  lemma LastIsCovered(rs: seq<Span>)
    requires Normal(rs) && rs != []
    ensures Covers(rs, Last(rs)) && forall p :: Covers(rs, p) ==> p <= Last(rs)
  {
    assert Within(rs[|rs| - 1], Last(rs));
  }

  function RangesOf(existing: Option<Stored>): seq<Span>
  {
    if existing.Some? then existing.value.ranges.ranges else []
  }

  /** One session: discarded if it is turned away; else what is kept is of the body that it brings. */
  method RunSession(key: string, existing: Option<Stored>, s: Session, disk: DiskSpeed, ghost was: ByteString)
    returns (after: Option<Stored>)
    requires IsToldApart(existing, s, was) && Fits(s) && |s.origin| < TWO_TO_THE_64
    ensures after.None? <==> IsTurnedAway(existing, s)
    ensures after.Some? ==> Kept(after.value, s.origin)
    ensures after.Some? ==> after.value.ranges.version == if existing.Some? then existing.value.ranges.version else 2
    ensures after.Some? ==> after.value.ranges.contentMD5 == SnapshotAtStart(existing, s).contentMD5
    ensures after.Some? && BeginsAfresh(existing, s) ==>
      && StatusOf(after.value.data) == (if 100 <= s.status <= 999 then s.status else 200)
      && (s.expiredAt < TWO_TO_THE_32 ==> ExpiresAtOf(after.value.data) == s.expiredAt)
    ensures after.Some? ==>
      Grows(RangesOf(existing), after.value.ranges.ranges) && Last(RangesOf(existing)) <= Last(after.value.ranges.ranges)
    ensures after.Some? ==>
      TimelyAreKept(after.value.ranges.ranges, Last(RangesOf(existing)), s.writes, |s.writes|, disk)
  {
    var w, ok := OpenSession(key, existing, s, disk, was);
    if !ok {
      return None;
    }
    var closed := WriteAndClose(w, s);
    after := Some(closed);
  }

  method WriteAndClose(w: PartialFileWriter, s: Session) returns (after: Stored)
    requires w.Valid() && w.RecordKnown() && !w.Shifted() && w.held == s.origin && IsAnnounced(w, w.ranges.ranges)
    requires Fits(s) && |s.origin| < TWO_TO_THE_64
    requires if w.isNew then 0 < w.headerSize < TWO_TO_THE_32
             else HeaderLengthOf(w.record) > 0 && (BodyLengthOf(w.record) == 0 || BodyLengthOf(w.record) == |s.origin|)
    requires '\n' !in w.ranges.contentMD5 && w.bodySize == s.bodyLength
    requires w.bodySize > 0 || w.ranges.bodySize == 0 || w.ranges.bodySize == |s.origin|
    modifies w`bodyOffset, w`writtenBytes, w`published, w`held, w`record, w`recorded, w.rawWriter
    modifies w.ranges`ranges, w.ranges`bodySize
    ensures Kept(after, s.origin)
    ensures Grows(old(w.ranges.ranges), after.ranges.ranges)
    ensures TimelyAreKept(after.ranges.ranges, old(Last(w.ranges.ranges)), s.writes, |s.writes|, w.disk)
    ensures after.ranges.version == old(w.ranges.version) && after.ranges.contentMD5 == old(w.ranges.contentMD5)
    ensures w.isNew ==> StatusOf(after.data) == w.status && (w.expiresAt < TWO_TO_THE_32 ==> ExpiresAtOf(after.data) == w.expiresAt)
  {
    WriteSlices(w, s.writes, s.origin, w.ranges.ranges);
    after := CloseSession(w, s.origin);
  }

  method CloseSession(w: PartialFileWriter, ghost origin: ByteString) returns (after: Stored)
    requires w.Valid() && w.RecordKnown() && !w.Shifted() && w.held == origin && |origin| < TWO_TO_THE_64
    requires if w.isNew then 0 < w.headerSize < TWO_TO_THE_32
             else HeaderLengthOf(w.record) > 0 && (BodyLengthOf(w.record) == 0 || BodyLengthOf(w.record) == |origin|)
    requires '\n' !in w.ranges.contentMD5
    requires w.bodySize == 0 || w.bodySize == |origin|
    requires w.bodySize > 0 || w.ranges.bodySize == 0 || w.ranges.bodySize == |origin|
    modifies w`published, w`record, w`recorded, w.rawWriter, w.ranges`bodySize
    ensures Kept(after, origin) && after.ranges.ranges == old(w.ranges.ranges)
    ensures after.ranges.version == old(w.ranges.version) && after.ranges.contentMD5 == old(w.ranges.contentMD5)
    ensures w.isNew ==> StatusOf(after.data) == w.status && (w.expiresAt < TWO_TO_THE_32 ==> ExpiresAtOf(after.data) == w.expiresAt)
  {
    after := w.Close();
  }

  /** The last position that is covered for certain after these sessions. */
  function ReachAll(sessions: seq<Session>, disk: DiskSpeed): int
  {
    if sessions == [] then 0
    else Reach(ReachAll(sessions[..|sessions| - 1], disk), sessions[|sessions| - 1].writes, disk)
  }

  /** All sessions but the last one, and what the last one has to go on from, still count. */
  ghost predicate AllTimelyAreKept(rs: seq<Span>, sessions: seq<Session>, k: nat, disk: DiskSpeed)
    requires k <= |sessions|
  {
    && ReachAll(sessions[..k], disk) <= Last(rs)
    && forall i :: 0 <= i < k ==>
         TimelyAreKept(rs, ReachAll(sessions[..i], disk), sessions[i].writes, |sessions[i].writes|, disk)
  }

  /** The digests of the sessions tell their bodies apart: either all or none of them bring a digest that can be recorded. */
  ghost predicate AreToldApart(sessions: seq<Session>)
  {
    && (forall i :: 0 <= i < |sessions| ==> IsRecordable(sessions[i].contentMD5))
    && (forall i, j :: 0 <= i < j < |sessions| && sessions[i].contentMD5 == sessions[j].contentMD5 ==>
          sessions[i].origin == sessions[j].origin)
    && (forall i, j :: 0 <= i < j < |sessions| ==> (sessions[i].contentMD5 == "" <==> sessions[j].contentMD5 == ""))
    && (SameDigest(sessions) || forall i :: 0 <= i < |sessions| ==> SaysItsLength(sessions[i]))
  }

  ghost predicate SameDigest(sessions: seq<Session>)
  {
    forall i :: 0 <= i < |sessions| ==> sessions[i].contentMD5 == sessions[0].contentMD5
  }

  /** After any number of sessions, even of changing bodies, every covered position holds the byte of the last session's
      body, and the digest is its. If the body never changed, every slice that was written near enough to what was covered
      by then is covered. */
  method RunSessions(key: string, sessions: seq<Session>, disk: DiskSpeed) returns (stored: Option<Stored>)
    requires AreToldApart(sessions)
    requires forall k :: 0 <= k < |sessions| ==> Fits(sessions[k]) && |sessions[k].origin| < TWO_TO_THE_64
    ensures stored.Some? ==>
      && sessions != [] && Kept(stored.value, sessions[|sessions| - 1].origin)
      && stored.value.ranges.version == 2 && stored.value.ranges.contentMD5 == sessions[|sessions| - 1].contentMD5
    ensures sessions != [] && SameDigest(sessions) ==>
      stored.Some? && AllTimelyAreKept(stored.value.ranges.ranges, sessions, |sessions|, disk)
  {
    stored := None;
    ghost var was := [];
    for k := 0 to |sessions|
      invariant stored.Some? ==> k > 0 && was == sessions[k - 1].origin && Kept(stored.value, was)
      invariant stored.Some? ==>
        stored.value.ranges.version == 2 && stored.value.ranges.contentMD5 == sessions[k - 1].contentMD5
      invariant SameDigest(sessions) ==> (stored.Some? <==> k > 0) && AllTimelyAreKept(RangesOf(stored), sessions, k, disk)
    {
      ghost var rs := RangesOf(stored);
      stored := RunSession(key, stored, sessions[k], disk, was);
      was := sessions[k].origin;
      if SameDigest(sessions) {
        OneMoreSession(rs, RangesOf(stored), sessions, k, disk);
      }
    }
  }

  /** The failing input: a file without ranges, and a session of another length without a digest. The old digest stays with
      the new body. */
  method StaleDigestStays(key: string, existing: Stored, s: Session, disk: DiskSpeed, ghost was: ByteString)
    returns (after: Option<Stored>)
    requires Kept(existing, was) && existing.ranges.ranges == [] && existing.ranges.version == 2
    requires existing.ranges.contentMD5 != "" && s.contentMD5 == ""
    requires OtherLength(existing, s.declaredBody) && Fits(s) && SaysItsLength(s) && |s.origin| < TWO_TO_THE_64
    ensures after.Some? && Kept(after.value, s.origin) && after.value.ranges.contentMD5 == existing.ranges.contentMD5
  {
    after := RunSession(key, Some(existing), s, disk, was);
  }

  lemma OneMoreSession(rs: seq<Span>, after: seq<Span>, sessions: seq<Session>, k: nat, disk: DiskSpeed)
    requires k < |sessions| && AllTimelyAreKept(rs, sessions, k, disk) && Grows(rs, after) && Last(rs) <= Last(after)
    requires TimelyAreKept(after, Last(rs), sessions[k].writes, |sessions[k].writes|, disk)
    ensures AllTimelyAreKept(after, sessions, k + 1, disk)
  {
    assert sessions[..k + 1][..k] == sessions[..k];
    var writes := sessions[k].writes;
    assert writes[..|writes|] == writes;
    LessIsKept(after, ReachAll(sessions[..k], disk), Last(rs), writes, disk);
    forall i | 0 <= i < k
      ensures TimelyAreKept(after, ReachAll(sessions[..i], disk), sessions[i].writes, |sessions[i].writes|, disk)
    {
      MoreIsKept(rs, after, ReachAll(sessions[..i], disk), sessions[i].writes, disk);
    }
  }

  /** What is near to less is near to more. */
  lemma LessIsKept(rs: seq<Span>, less: int, last: int, writes: seq<(nat, nat)>, disk: DiskSpeed)
    requires less <= last && TimelyAreKept(rs, last, writes, |writes|, disk)
    ensures TimelyAreKept(rs, less, writes, |writes|, disk)
  {
    ReachGrows(less, last, writes[..|writes|], disk);
    forall j | 0 <= j < |writes| && IsNear(writes[j], Reach(less, writes[..j], disk), disk) ensures IsKept(rs, writes[j]) {
      ReachGrows(less, last, writes[..j], disk);
    }
  }

  lemma MoreIsKept(rs: seq<Span>, after: seq<Span>, last: int, writes: seq<(nat, nat)>, disk: DiskSpeed)
    requires TimelyAreKept(rs, last, writes, |writes|, disk) && Grows(rs, after) && Last(rs) <= Last(after)
    ensures TimelyAreKept(after, last, writes, |writes|, disk)
  {
    forall j | 0 <= j < |writes| && IsNear(writes[j], Reach(last, writes[..j], disk), disk) ensures IsKept(after, writes[j]) {
      assert IsKept(rs, writes[j]);
    }
  }
}
