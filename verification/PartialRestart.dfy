/** A writer that is opened again for another body length begins a new file, but keeps the old ranges
    (internal/caches/storage_file.go, internal/caches/writer_partial_file.go): what such a session leaves on disk. */
module PartialRestart {
  import opened ByteFile
  import opened ByteRanges
  import opened ByteRangesText
  import opened Bytes
  import opened CacheFormat
  import opened PartialFile
  import opened PartialHistory
  import opened PartialServe
  import opened Wrappers

  // ---------- what the new file holds ----------

  /** The byte at position q of the new body: the origin's where one has been placed, and otherwise zero. */
  ghost function ContentAt(placed: iset<int>, origin: ByteString, q: int): Byte
  {
    if q in placed && 0 <= q < |origin| then origin[q] else 0
  }

  /** From `start` on the file holds the placed bytes of the origin, at their places after `base`, and zero bytes. */
  ghost predicate Patchwork(placed: iset<int>, start: nat, base: nat, file: ByteString, origin: ByteString)
  {
    && start <= base && start <= |file|
    && (forall q :: q in placed ==> 0 <= q < |origin| && base + q < |file|)
    && (forall i :: start <= i < |file| ==> file[i] == ContentAt(placed, origin, i - base))
  }

  lemma PlacedMore(placed: iset<int>, start: nat, base: nat, file: ByteString, origin: ByteString, write: (nat, nat))
    requires Patchwork(placed, start, base, file, origin) && write.0 + write.1 <= |origin| && write.1 > 0
    ensures Patchwork(placed + Positions(write), start, base,
                      Overlay(file, base + write.0, origin[write.0..write.0 + write.1]), origin)
  {
    var chunk := origin[write.0..write.0 + write.1];
    var after := Overlay(file, base + write.0, chunk);
    OverlayAt(file, base + write.0, chunk);
    OverlayGap(file, base + write.0, chunk);
    forall i | start <= i < |after| ensures after[i] == ContentAt(placed + Positions(write), origin, i - base) {
      if base + write.0 <= i < base + write.0 + write.1 {
        assert after[i] == chunk[i - base - write.0];
      } else if i < |file| {
        assert after[i] == file[i];
      } else {
        assert after[i] == 0 && i - base !in placed;
      }
    }
  }

  lemma ProlongedMore(placed: iset<int>, start: nat, base: nat, file: ByteString, after: ByteString, origin: ByteString, more: nat)
    requires Patchwork(placed, start, base, file, origin) && Prolonged(file, after, more)
    ensures Patchwork(placed, start, base, after, origin)
  {
    forall i | start <= i < |after| ensures after[i] == ContentAt(placed, origin, i - base) {
      assert i < |file| ==> after[i] == file[i];
    }
  }

  // ---------- which writes are placed ----------

  /** The k-th write has a position that neither the old ranges nor an earlier write has. */
  ghost predicate BringsNews(former: seq<Span>, writes: seq<(nat, nat)>, k: nat)
    requires k < |writes|
  {
    exists p :: p in Positions(writes[k]) && !Covers(former, p) && !IsWritten(writes, k, p)
  }

  /** One of the first `k` writes has this position. */
  ghost predicate IsWritten(writes: seq<(nat, nat)>, k: nat, p: int)
    requires k <= |writes|
  {
    exists j :: 0 <= j < k && p in Positions(writes[j])
  }

  ghost predicate AllInside(rs: seq<Span>, writes: seq<(nat, nat)>)
  {
    forall j :: 0 <= j < |writes| ==> IsKept(rs, writes[j])
  }

  /** The ranges cover the old ones and what has been placed, which is part of what has been written. */
  ghost predicate Joined(former: seq<Span>, rs: seq<Span>, placed: iset<int>, writes: seq<(nat, nat)>, k: nat)
    requires k <= |writes|
  {
    && (forall p :: Covers(rs, p) <==> Covers(former, p) || p in placed)
    && (forall p :: p in placed ==> IsWritten(writes, k, p))
  }

  /** What a write makes of the placed positions. */
  ghost function PlacedAfter(placed: iset<int>, write: (nat, nat), skipped: bool): iset<int>
  {
    if skipped then placed else placed + Positions(write)
  }

  /** All of a write is placed when it brings news and begins near enough to what is covered by then. */
  ghost predicate NewsArePlaced(former: seq<Span>, placed: iset<int>, writes: seq<(nat, nat)>, k: nat, disk: DiskSpeed)
    requires k <= |writes|
  {
    forall j :: 0 <= j < k && BringsNews(former, writes, j) && IsNear(writes[j], Reach(Last(former), writes[..j], disk), disk)
      ==> Positions(writes[j]) <= placed
  }

  /** The j-th write is such a write and has the position p. */
  ghost predicate IsPlacing(former: seq<Span>, writes: seq<(nat, nat)>, j: nat, p: int, disk: DiskSpeed)
    requires j < |writes|
  {
    p in Positions(writes[j]) && BringsNews(former, writes, j) && IsNear(writes[j], Reach(Last(former), writes[..j], disk), disk)
  }

  ghost predicate AllRewritten(former: seq<Span>, writes: seq<(nat, nat)>, disk: DiskSpeed)
  {
    forall p :: Covers(former, p) ==> exists j :: 0 <= j < |writes| && IsPlacing(former, writes, j, p, disk)
  }

  lemma RewrittenIsPlaced(former: seq<Span>, placed: iset<int>, writes: seq<(nat, nat)>, disk: DiskSpeed)
    requires NewsArePlaced(former, placed, writes, |writes|, disk) && AllRewritten(former, writes, disk)
    ensures forall p :: Covers(former, p) ==> p in placed
  {
    forall p | Covers(former, p) ensures p in placed {
      var j :| 0 <= j < |writes| && IsPlacing(former, writes, j, p, disk);
      assert Positions(writes[j]) <= placed;
    }
  }

  lemma IsWrittenMore(writes: seq<(nat, nat)>, k: nat)
    requires k < |writes|
    ensures forall p :: IsWritten(writes, k + 1, p) <==> IsWritten(writes, k, p) || p in Positions(writes[k])
  {
    forall p | IsWritten(writes, k, p) ensures IsWritten(writes, k + 1, p) {
      var j :| 0 <= j < k && p in Positions(writes[j]);
    }
  }

  lemma OneMoreJoined(former: seq<Span>, rs: seq<Span>, after: seq<Span>, placed: iset<int>, now: iset<int>,
                      writes: seq<(nat, nat)>, k: nat, skipped: bool)
    requires k < |writes| && Normal(rs) && Joined(former, rs, placed, writes, k) && (writes[k].1 == 0 ==> skipped)
    requires after == RangesAfter(rs, writes[k], skipped)
    requires now == PlacedAfter(placed, writes[k], skipped)
    ensures Joined(former, after, now, writes, k + 1)
  {
    IsWrittenMore(writes, k);
    if !skipped {
      AddSpanCovers(rs, writes[k].0, writes[k].0 + writes[k].1 - 1);
    }
  }

  /** A write that brings news is needed. */
  lemma NewsAreNeeded(former: seq<Span>, rs: seq<Span>, placed: iset<int>, writes: seq<(nat, nat)>, k: nat)
    requires k < |writes| && Joined(former, rs, placed, writes, k) && BringsNews(former, writes, k)
    ensures !IsKept(rs, writes[k])
  {
    var p :| p in Positions(writes[k]) && !Covers(former, p) && !IsWritten(writes, k, p);
    assert !Covers(rs, p);
  }

  // ---------- the session ----------

  /** One slice of the origin: placed, or skipped. */
  method PlaceSlice(w: PartialFileWriter, write: (nat, nat), origin: ByteString, ghost placed: iset<int>, ghost start: nat)
    returns (ghost now: iset<int>, ghost needless: bool, ghost skipped: bool)
    requires w.ranges.Valid() && w.InPlace() && w.held == origin && write.0 + write.1 <= |origin|
    requires Patchwork(placed, start, w.Base(), w.rawWriter.data, origin)
    modifies w`bodyOffset, w`writtenBytes, w`published, w`held, w.rawWriter`data, w.ranges`ranges, w.ranges`bodySize
    ensures w.ranges.Valid() && w.InPlace() && w.held == origin && w.Base() == old(w.Base())
    ensures Patchwork(now, start, w.Base(), w.rawWriter.data, origin)
    ensures (needless <==> IsKept(old(w.ranges.ranges), write)) && (needless || write.1 == 0 ==> skipped)
    ensures skipped && !needless ==> !IsNear(write, Last(old(w.ranges.ranges)), w.disk)
    ensures needless ==> w.rawWriter.data == old(w.rawWriter.data)
    ensures now == PlacedAfter(placed, write, skipped)
    ensures w.ranges.ranges == RangesAfter(old(w.ranges.ranges), write, skipped)
  {
    ghost var file, base := w.rawWriter.data, w.Base();
    NeedlessIsKept(w.ranges.ranges, write);
    var chunk := origin[write.0..write.0 + write.1];
    assert (write.0, |chunk|) == write;
    needless, skipped := PutSlice(w, write.0, chunk, origin);
    now := PlacedAfter(placed, write, skipped);
    AfterPlacing(placed, now, start, base, file, w.rawWriter.data, origin, write, skipped);
  }

  lemma AfterPlacing(placed: iset<int>, now: iset<int>, start: nat, base: nat, file: ByteString, after: ByteString,
                     origin: ByteString, write: (nat, nat), skipped: bool)
    requires Patchwork(placed, start, base, file, origin) && write.0 + write.1 <= |origin| && (write.1 == 0 ==> skipped)
    requires now == PlacedAfter(placed, write, skipped)
    requires if skipped then Lengthened(file, after)
             else after == Overlay(file, base + write.0, origin[write.0..write.0 + write.1])
    ensures Patchwork(now, start, base, after, origin)
  {
    if skipped {
      ProlongedMore(placed, start, base, file, after, origin, |after| - |file|);
    } else {
      PlacedMore(placed, start, base, file, origin, write);
    }
  }

  /** The body of a file that so far is record and header. */
  method WriteOver(w: PartialFileWriter, writes: seq<(nat, nat)>, origin: ByteString) returns (ghost placed: iset<int>)
    requires w.ranges.Valid() && w.InPlace() && w.RecordKnown() && w.isNew && w.bodyOffset == 0 && w.held == origin
    requires |w.rawWriter.data| == SIZE_META + w.headerSize
    requires forall k :: 0 <= k < |writes| ==> writes[k].0 + writes[k].1 <= |origin|
    modifies w`bodyOffset, w`writtenBytes, w`published, w`held, w.rawWriter`data, w.ranges`ranges, w.ranges`bodySize
    ensures w.ranges.Valid() && w.InPlace() && w.RecordKnown() && w.held == origin && w.Base() == old(w.Base())
    ensures Patchwork(placed, SIZE_META + w.headerSize, w.Base(), w.rawWriter.data, origin)
    ensures Joined(old(w.ranges.ranges), w.ranges.ranges, placed, writes, |writes|)
    ensures NewsArePlaced(old(w.ranges.ranges), placed, writes, |writes|, w.disk)
    ensures AllInside(old(w.ranges.ranges), writes) ==>
      placed == iset{} && w.rawWriter.data == old(w.rawWriter.data) && w.ranges.ranges == old(w.ranges.ranges)
  {
    ghost var former, start, file := w.ranges.ranges, SIZE_META + w.headerSize, w.rawWriter.data;
    placed := iset{};
    for k := 0 to |writes|
      invariant w.ranges.Valid() && w.InPlace() && w.held == origin && w.Base() == old(w.Base())
      invariant Patchwork(placed, start, w.Base(), w.rawWriter.data, origin)
      invariant Told(former, w.ranges.ranges, placed, writes, k, w.disk)
      invariant AllInside(former, writes) ==> placed == iset{} && w.rawWriter.data == file && w.ranges.ranges == former
    {
      ghost var rs, before := w.ranges.ranges, placed;
      ghost var needless, skipped;
      placed, needless, skipped := PlaceSlice(w, writes[k], origin, placed, start);
      assert AllInside(former, writes) ==> IsKept(former, writes[k]);
      OneMoreTold(former, rs, w.ranges.ranges, before, placed, writes, k, needless, skipped, w.disk);
    }
  }

  /** What ranges and placed positions have to do with the old ranges and the writes. */
  ghost predicate Told(former: seq<Span>, rs: seq<Span>, placed: iset<int>, writes: seq<(nat, nat)>, k: nat, disk: DiskSpeed)
    requires k <= |writes|
  {
    && Joined(former, rs, placed, writes, k)
    && NewsArePlaced(former, placed, writes, k, disk)
    && TimelyAreKept(rs, Last(former), writes, k, disk)
  }

  lemma OneMoreTold(former: seq<Span>, rs: seq<Span>, after: seq<Span>, placed: iset<int>, now: iset<int>,
                    writes: seq<(nat, nat)>, k: nat, needless: bool, skipped: bool, disk: DiskSpeed)
    requires k < |writes| && Normal(rs) && Told(former, rs, placed, writes, k, disk)
    requires needless <==> IsKept(rs, writes[k])
    requires (needless ==> skipped) && (writes[k].1 == 0 ==> skipped)
    requires skipped && !needless ==> !IsNear(writes[k], Last(rs), disk)
    requires after == RangesAfter(rs, writes[k], skipped)
    requires now == PlacedAfter(placed, writes[k], skipped)
    ensures Told(former, after, now, writes, k + 1, disk)
  {
    OneMoreTimely(rs, after, Last(former), writes, k, needless, skipped, disk);
    OneMorePlaced(former, rs, placed, now, writes, k, needless, skipped, disk);
    OneMoreJoined(former, rs, after, placed, now, writes, k, skipped);
  }

  lemma OneMoreTimely(rs: seq<Span>, after: seq<Span>, last: int, writes: seq<(nat, nat)>, k: nat, needless: bool,
                      skipped: bool, disk: DiskSpeed)
    requires k < |writes| && Normal(rs) && TimelyAreKept(rs, last, writes, k, disk)
    requires (needless <==> IsKept(rs, writes[k])) && (needless ==> skipped)
    requires skipped && !needless ==> !IsNear(writes[k], Last(rs), disk)
    requires after == RangesAfter(rs, writes[k], skipped)
    ensures TimelyAreKept(after, last, writes, k + 1, disk)
  {
    NeedlessIsKept(rs, writes[k]);
    SliceExtends(rs, after, writes[k].0, writes[k].1, needless, skipped, disk);
    OneMoreIsKept(rs, after, last, writes, k, disk);
  }

  lemma OneMorePlaced(former: seq<Span>, rs: seq<Span>, placed: iset<int>, now: iset<int>, writes: seq<(nat, nat)>, k: nat,
                      needless: bool, skipped: bool, disk: DiskSpeed)
    requires k < |writes| && Joined(former, rs, placed, writes, k) && NewsArePlaced(former, placed, writes, k, disk)
    requires Reach(Last(former), writes[..k], disk) <= Last(rs)
    requires needless <==> IsKept(rs, writes[k])
    requires skipped && !needless ==> !IsNear(writes[k], Last(rs), disk)
    requires now == PlacedAfter(placed, writes[k], skipped)
    ensures NewsArePlaced(former, now, writes, k + 1, disk)
  {
    if skipped && BringsNews(former, writes, k) {
      NewsAreNeeded(former, rs, placed, writes, k);
    }
  }

  lemma NeedlessIsKept(rs: seq<Span>, write: (nat, nat))
    requires Normal(rs)
    ensures write.1 == 0 || HoldsWhole(rs, write.0, write.0 + write.1 - 1) <==> IsKept(rs, write)
  {
    if write.1 > 0 {
      HoldsWholeIsCoverage(rs, write.0, write.0 + write.1 - 1);
    }
  }

  // ---------- what it leaves ----------

  /** Every covered position has, where readers look for it, the origin's byte. */
  ghost predicate IsFilled(after: Stored, placed: iset<int>, origin: ByteString, shift: nat)
    requires |after.data| >= SIZE_META
  {
    forall p :: Covers(after.ranges.ranges, p) ==>
      0 <= p < |origin| && BaseOf(after.data) + p < |after.data| && origin[p] == ContentAt(placed, origin, p - shift)
  }

  /** The positions of old ranges where nothing has been placed are those of zero bytes, by chance. */
  ghost predicate OnlyZeroesMissing(former: seq<Span>, after: Stored, placed: iset<int>, origin: ByteString)
    requires |after.data| >= SIZE_META
  {
    forall p :: Covers(former, p) && p !in placed ==>
      0 <= p < |origin| && BaseOf(after.data) + p < |after.data| && origin[p] == 0
  }

  lemma FaithfulIffFilled(after: Stored, placed: iset<int>, start: nat, base: nat, shift: nat, file: ByteString,
                          origin: ByteString)
    requires |after.data| >= SIZE_META && 100 <= StatusOf(after.data) <= 999 && Normal(after.ranges.ranges)
    requires start == BaseOf(after.data) && Patchwork(placed, start, base, file, origin) && base == start + shift
    requires SameFrom(SIZE_META, file, after.data)
    ensures Faithful(after, origin) <==> IsFilled(after, placed, origin, shift)
  {
    forall p | Covers(after.ranges.ranges, p)
      ensures HasByte(start, after.data, origin, p) <==>
        0 <= p < |origin| && start + p < |after.data| && origin[p] == ContentAt(placed, origin, p - shift)
    {
      assert 0 <= p && start + p < |after.data| ==> after.data[start + p] == file[start + p];
    }
  }

  lemma FilledWithoutShift(former: seq<Span>, after: Stored, placed: iset<int>, base: nat, file: ByteString, origin: ByteString)
    requires |after.data| >= SIZE_META && base == BaseOf(after.data) && Patchwork(placed, base, base, file, origin)
    requires |file| == |after.data|
    requires forall p :: Covers(after.ranges.ranges, p) <==> Covers(former, p) || p in placed
    ensures IsFilled(after, placed, origin, 0) <==> OnlyZeroesMissing(former, after, placed, origin)
  {
    if IsFilled(after, placed, origin, 0) {
      forall p | Covers(former, p) && p !in placed
        ensures 0 <= p < |origin| && base + p < |after.data| && origin[p] == 0
      {
        assert Covers(after.ranges.ranges, p);
      }
    }
  }

  /** The beginning of such a session: a file that is record and header, and the old ranges. */
  method BeginAgain(key: string, existing: Stored, s: Session, disk: DiskSpeed, ghost origin: ByteString)
    returns (w: PartialFileWriter)
    requires Usable(existing) && OtherLength(existing, s.declaredBody) && Normal(existing.ranges.ranges)
    requires '\n' !in existing.ranges.contentMD5 && Fits(s) && s.origin == origin
    ensures fresh(w) && fresh(w.rawWriter) && fresh(w.ranges)
    ensures SnapshotOf(w.ranges) == existing.ranges && w.key == key && w.held == origin && w.disk == disk
    ensures w.InPlace() && w.RecordKnown() && w.isNew && w.bodyOffset == 0 && w.headerSize < TWO_TO_THE_32
    ensures |w.rawWriter.data| == SIZE_META + w.headerSize
  {
    w := OpenPartialWriter(key, Some(existing), s.expiredAt, s.status, s.declaredHeader, s.declaredBody, disk, origin);
    PutHeader(w, s);
    w.SetBodyLength(s.bodyLength);
  }

  /** The end of it. */
  method EndAgain(w: PartialFileWriter, ghost placed: iset<int>, ghost former: seq<Span>, ghost origin: ByteString)
    returns (after: Stored)
    requires w.ranges.Valid() && w.InPlace() && w.RecordKnown() && w.isNew && w.headerSize < TWO_TO_THE_32
    requires Patchwork(placed, SIZE_META + w.headerSize, w.Base(), w.rawWriter.data, origin)
    requires forall p :: Covers(w.ranges.ranges, p) <==> Covers(former, p) || p in placed
    modifies w`published, w`record, w`recorded, w.rawWriter, w.ranges`bodySize
    ensures |after.data| == |old(w.rawWriter.data)| >= SIZE_META && BaseOf(after.data) == SIZE_META + w.headerSize
    ensures after.ranges.ranges == old(w.ranges.ranges)
    ensures Faithful(after, origin) <==> IsFilled(after, placed, origin, w.KeyLength())
    ensures w.KeyLength() == 0 ==> (Faithful(after, origin) <==> OnlyZeroesMissing(former, after, placed, origin))
  {
    ghost var file, start, base := w.rawWriter.data, SIZE_META + w.headerSize, w.Base();
    after := CloseNew(w);
    FaithfulIffFilled(after, placed, start, base, w.KeyLength(), file, origin);
    if w.KeyLength() == 0 {
      assert start == base;
      FilledWithoutShift(former, after, placed, base, file, origin);
    }
  }

  method CloseNew(w: PartialFileWriter) returns (after: Stored)
    requires w.InPlace() && w.RecordKnown() && w.isNew && w.headerSize < TWO_TO_THE_32
    modifies w`published, w`record, w`recorded, w.rawWriter, w.ranges`bodySize
    ensures |after.data| >= SIZE_META && 100 <= StatusOf(after.data) <= 999
    ensures BaseOf(after.data) == SIZE_META + w.headerSize
    ensures SameFrom(SIZE_META, old(w.rawWriter.data), after.data)
    ensures after.ranges.ranges == old(w.ranges.ranges)
  {
    after := w.Close();
  }

  /** A whole session on a file that is begun anew with old ranges. The file that it leaves tells the truth exactly when
      every covered position has been filled, which without shift means that everything the old ranges cover has been
      written again, but for zero bytes. When nothing comes from outside the old ranges, it does not. */
  method Restart(key: string, existing: Stored, s: Session, disk: DiskSpeed, origin: ByteString)
    returns (after: Stored, ghost placed: iset<int>)
    requires Usable(existing) && OtherLength(existing, s.declaredBody) && Normal(existing.ranges.ranges)
    requires '\n' !in existing.ranges.contentMD5 && Fits(s) && s.origin == origin
    ensures |after.data| >= SIZE_META
    ensures Joined(existing.ranges.ranges, after.ranges.ranges, placed, s.writes, |s.writes|)
    ensures NewsArePlaced(existing.ranges.ranges, placed, s.writes, |s.writes|, disk)
    ensures var shift := if existing.ranges.version == 0 then |key| else 0;
      && (Faithful(after, origin) <==> IsFilled(after, placed, origin, shift))
      && (shift == 0 ==> (Faithful(after, origin) <==> OnlyZeroesMissing(existing.ranges.ranges, after, placed, origin)))
      && (shift == 0 && AllRewritten(existing.ranges.ranges, s.writes, disk) ==> Faithful(after, origin))
    ensures AllInside(existing.ranges.ranges, s.writes) && existing.ranges.ranges != [] ==>
      after.ranges.ranges == existing.ranges.ranges && !Faithful(after, origin)
  {
    var w := BeginAgain(key, existing, s, disk, origin);
    ghost var former := existing.ranges.ranges;
    placed := WriteOver(w, s.writes, origin);
    after := EndAgain(w, placed, former, origin);
    if AllRewritten(former, s.writes, disk) {
      RewrittenIsPlaced(former, placed, s.writes, disk);
    }
    if AllInside(former, s.writes) && former != [] {
      NothingIsThere(after, former, origin);
    }
  }

  /** A file that ends with its header has no byte for any covered position. */
  lemma NothingIsThere(after: Stored, former: seq<Span>, origin: ByteString)
    requires |after.data| >= SIZE_META && BaseOf(after.data) == |after.data|
    requires after.ranges.ranges == former && former != [] && Normal(former)
    ensures !Faithful(after, origin)
  {
    assert Within(former[0], former[0].0);
    assert Covers(former, former[0].0);
  }
}
