/** Serving an open-ended request from an incomplete cache file: a cached prefix, then the origin, with what the origin
    sends written back (internal/nodes/http_request_cache.go, internal/nodes/http_request_cache_partial.go). */
module PartialStitch {
  import opened Bytes
  import opened ByteFile
  import opened ByteRanges
  import opened CacheFormat
  import opened FileCache
  import opened PartialFile
  import opened PartialServe
  import opened PartialHistory
  import opened Wrappers

  const WORTH_READING: nat := 256 * 1024

  /** How the origin answers the request for the rest of its body: not at all, or with a digest and whatever bytes it
      sends, since neither status nor range of the answer is looked at. */
  datatype Answer = NoAnswer | Rest(contentMD5: string, body: ByteString)

  datatype ReadResult = Chunk(bytes: ByteString) | EndOfBody

  /** What the request's storage is good for: there may be none, or it may refuse a writer. */
  datatype Storage = NoStorage | Unwritable | Writable

  // ---------- the origin's body with parts of the answer laid over it ----------

  /** The body has the answer's bytes, which begin at `begin`, at the placed positions, and elsewhere the origin's. */
  ghost predicate Blend(held: ByteString, origin: ByteString, placed: iset<int>, begin: nat, body: ByteString)
  {
    && |held| >= |origin|
    && (forall p :: p in placed ==> begin <= p < begin + |body| && p < |held|)
    && forall p :: 0 <= p < |held| ==> IsByteOf(held[p], p, origin, placed, begin, body)
  }

  ghost predicate IsByteOf(b: Byte, p: nat, origin: ByteString, placed: iset<int>, begin: nat, body: ByteString)
  {
    if p in placed then begin <= p < begin + |body| && b == body[p - begin] else p < |origin| && b == origin[p]
  }

  /** The answer's byte for position p is the origin's. */
  predicate IsRightAt(p: int, origin: ByteString, begin: nat, body: ByteString)
  {
    begin <= p < |origin| && p < begin + |body| && body[p - begin] == origin[p]
  }

  lemma BlendMore(held: ByteString, origin: ByteString, placed: iset<int>, begin: nat, body: ByteString, offset: nat,
                  chunk: ByteString)
    requires Blend(held, origin, placed, begin, body) && begin <= offset <= |held|
    requires offset + |chunk| <= begin + |body| && chunk == body[offset - begin..offset - begin + |chunk|]
    ensures Blend(Overlay(held, offset, chunk), origin, placed + Positions((offset, |chunk|)), begin, body)
  {
    var now, after := placed + Positions((offset, |chunk|)), Overlay(held, offset, chunk);
    OverlayAt(held, offset, chunk);
    forall p | 0 <= p < |after| ensures IsByteOf(after[p], p, origin, now, begin, body) {
      if offset <= p < offset + |chunk| {
        assert after[p] == chunk[p - offset] == body[p - begin];
      } else {
        assert p < |held| && after[p] == held[p];
      }
    }
  }

  /** A file that is true of such a body is true of the origin exactly when what was placed is right. */
  lemma TrueIffPlacedRight(after: Stored, held: ByteString, origin: ByteString, placed: iset<int>, begin: nat, body: ByteString)
    requires Faithful(after, held) && Blend(held, origin, placed, begin, body)
    requires forall p :: p in placed ==> Covers(after.ranges.ranges, p)
    ensures Faithful(after, origin) <==> forall p :: p in placed ==> IsRightAt(p, origin, begin, body)
  {
    var rs, base := after.ranges.ranges, BaseOf(after.data);
    forall p | Covers(rs, p)
      ensures HasByte(base, after.data, origin, p) <==> (p in placed ==> IsRightAt(p, origin, begin, body))
    {
      assert HasByte(base, after.data, held, p);
      assert IsByteOf(held[p], p, origin, placed, begin, body);
    }
  }

  /** The ranges have grown by what was placed, which is part of what has been read. */
  ghost predicate GrownBy(former: seq<Span>, rs: seq<Span>, placed: iset<int>, begin: nat, end: nat)
  {
    && (forall p :: Covers(rs, p) <==> Covers(former, p) || p in placed)
    && (forall p :: p in placed ==> begin <= p < end)
  }

  class HTTPRequestPartialReader {
    const origin: ByteString
    const answer: Answer
    const stored: Stored
    const storage: Storage
    const disk: DiskSpeed
    var offset: nat
    var resp: Option<nat>  // how much of the answer has been read
    var cacheWriter: PartialFileWriter?
    var isRemoved: bool  // the cached file has been deleted
    ghost var placed: iset<int>  // what has been written over
    ghost const begin: nat
    ghost const served: nat  // the request began here, and everything up to begin is covered

    constructor (origin: ByteString, answer: Answer, stored: Stored, offset: nat, storage: Storage, disk: DiskSpeed,
                 ghost served: nat)
      ensures this.origin == origin && this.answer == answer && this.stored == stored && this.storage == storage
      ensures this.offset == offset == begin && this.served == served && resp == None && cacheWriter == null
      ensures !isRemoved && placed == iset{}
    {
      this.origin, this.answer, this.stored, this.offset := origin, answer, stored, offset;
      this.storage, this.disk := storage, disk;
      resp, cacheWriter, isRemoved, placed := None, null, false, iset{};
      begin, this.served := offset, served;
    }

    ghost predicate Ready()
    {
      served < begin < |origin| && Kept(stored, origin) && CoversAll(stored.ranges.ranges, served, begin)
    }

    /** The writer has recorded everything before offset, which is where the answer has been read to. */
    ghost predicate Valid()
      reads this, cacheWriter
      reads if cacheWriter == null then {} else {cacheWriter.rawWriter, cacheWriter.ranges}
    {
      && answer.Rest? && resp.Some? && resp.value <= |answer.body|
      && (cacheWriter != null ==>
            && !cacheWriter.isNew
            && cacheWriter.Valid() && cacheWriter.RecordKnown()
            && offset == begin + resp.value
            && CoversAll(cacheWriter.ranges.ranges, served, offset - 1)
            && GrownBy(stored.ranges.ranges, cacheWriter.ranges.ranges, placed, begin, offset)
            && Blend(cacheWriter.held, origin, placed, begin, answer.body))
    }

    /** The first half of the first Read: sends the request and opens the writer. For another digest the storage, if
        there is one, deletes the cached file. */
    method Start() returns (ok: bool)
      requires Ready() && resp == None && cacheWriter == null && offset == begin && !isRemoved && placed == iset{}
      modifies this`resp, this`cacheWriter, this`isRemoved
      ensures ok <==> answer.Rest? && !(stored.ranges.version >= 2 && answer.contentMD5 != stored.ranges.contentMD5)
      ensures ok ==> Valid() && resp == Some(0) && (cacheWriter != null <==> storage.Writable?)
      ensures isRemoved <==>
        answer.Rest? && !storage.NoStorage? && stored.ranges.version >= 2 && answer.contentMD5 != stored.ranges.contentMD5
      ensures cacheWriter != null ==> fresh(cacheWriter) && fresh(cacheWriter.rawWriter) && fresh(cacheWriter.ranges)
    {
      if answer.NoAnswer? {
        return false;
      }
      resp := Some(0);
      if stored.ranges.version >= 2 && answer.contentMD5 != stored.ranges.contentMD5 {
        isRemoved := storage != NoStorage;
        return false;
      }
      if storage == Writable {
        var bodySize := BodyLengthOf(stored.data);
        var w := OpenPartialWriter("", Some(stored), 0, 200, 0, bodySize, disk, origin);
        cacheWriter := w;
      }
      return true;
    }

    /** The second half of every Read: passes on the next bytes of the answer and writes them back. */
    method ReadMore(room: nat) returns (r: ReadResult)
      requires Ready() && Valid() && room > 0
      modifies this`resp, this`offset, this`placed
      modifies if cacheWriter == null then {} else {cacheWriter, cacheWriter.rawWriter, cacheWriter.ranges}
      ensures Valid()
      ensures r == EndOfBody <==> old(resp).value == |answer.body|
      ensures r == EndOfBody ==> resp == old(resp)
      ensures r != EndOfBody ==>
                && r.Chunk? && r.bytes != [] && resp.value == old(resp).value + |r.bytes|
                && r.bytes == answer.body[old(resp).value..resp.value]
    {
      var pos := resp.value;
      if pos == |answer.body| {
        return EndOfBody;
      }
      var n :| 0 < n <= room && pos + n <= |answer.body|;
      if cacheWriter != null {
        placed := WriteBack(cacheWriter, served, offset, begin, origin, answer.body, pos, pos + n, placed, stored.ranges.ranges);
        offset := offset + n;
      }
      resp := Some(pos + n);
      r := Chunk(answer.body[pos..pos + n]);
    }
  }

  /** Writing on from the covered part is never postponed, so it extends the covered part. */
  method WriteBack(w: PartialFileWriter, ghost served: nat, offset: nat, ghost begin: nat, ghost origin: ByteString,
                   body: ByteString, from: nat, to: nat, ghost placed: iset<int>, ghost former: seq<Span>)
    returns (ghost now: iset<int>)
    requires w.Valid() && from < to <= |body| && offset == begin + from
    requires served < offset && CoversAll(w.ranges.ranges, served, offset - 1)
    requires Blend(w.held, origin, placed, begin, body) && GrownBy(former, w.ranges.ranges, placed, begin, offset)
    modifies w`bodyOffset, w`writtenBytes, w`published, w`held, w.rawWriter`data, w.ranges`ranges, w.ranges`bodySize
    ensures w.Valid() && CoversAll(w.ranges.ranges, served, begin + to - 1)
    ensures Blend(w.held, origin, now, begin, body) && GrownBy(former, w.ranges.ranges, now, begin, begin + to)
  {
    ghost var rs, held := w.ranges.ranges, w.held;
    HeldUpTo(w, served, offset);
    var chunk := body[from..to];
    ghost var isPlaced := PutContiguous(w, served, offset, chunk);
    now := if isPlaced then placed + Positions((offset, |chunk|)) else placed;
    if isPlaced {
      BlendMore(held, origin, placed, begin, body, offset, chunk);
    }
    GrownMore(former, rs, w.ranges.ranges, placed, now, begin, offset, |chunk|, isPlaced);
  }

  lemma HeldUpTo(w: PartialFileWriter, served: nat, offset: nat)
    requires w.Valid() && served < offset && CoversAll(w.ranges.ranges, served, offset - 1)
    ensures offset <= |w.held| && Normal(w.ranges.ranges)
  {
    assert Covers(w.ranges.ranges, offset - 1);
  }

  lemma GrownMore(former: seq<Span>, rs: seq<Span>, after: seq<Span>, placed: iset<int>, now: iset<int>, begin: nat,
                  offset: nat, length: nat, isPlaced: bool)
    requires Normal(rs) && begin <= offset && length > 0 && GrownBy(former, rs, placed, begin, offset)
    requires after == RangesAfter(rs, (offset, length), !isPlaced)
    requires now == if isPlaced then placed + Positions((offset, length)) else placed
    ensures GrownBy(former, after, now, begin, offset + length)
  {
    if isPlaced {
      AddSpanCovers(rs, offset, offset + length - 1);
    }
  }

  method PutContiguous(w: PartialFileWriter, ghost served: nat, offset: nat, p: ByteString) returns (ghost isPlaced: bool)
    requires w.Valid() && p != []
    requires served < offset && CoversAll(w.ranges.ranges, served, offset - 1)
    modifies w`bodyOffset, w`writtenBytes, w`published, w`held, w.rawWriter`data, w.ranges`ranges, w.ranges`bodySize
    ensures w.Valid() && CoversAll(w.ranges.ranges, served, offset + |p| - 1)
    ensures w.ranges.ranges == RangesAfter(old(w.ranges.ranges), (offset, |p|), !isPlaced)
    ensures w.held == if isPlaced then Overlay(old(w.held), offset, p) else old(w.held)
  {
    ghost var rs := w.ranges.ranges;
    NextToCovered(rs, served, offset);
    assert !w.Postponed(offset, |p|);
    isPlaced := !w.Needless(offset, |p|);
    w.WriteAt(offset, p);
    ContiguousIsCovered(rs, served, offset, |p|, !isPlaced);
  }

  lemma NextToCovered(rs: seq<Span>, served: nat, offset: nat)
    requires Normal(rs) && served < offset && CoversAll(rs, served, offset - 1)
    ensures offset <= Last(rs) + 1
  {
    assert Covers(rs, offset - 1);
    LastIsCovered(rs);
  }

  lemma ContiguousIsCovered(rs: seq<Span>, served: nat, offset: nat, length: nat, needless: bool)
    requires Normal(rs) && served < offset && length > 0 && CoversAll(rs, served, offset - 1)
    requires needless ==> HoldsWhole(rs, offset, offset + length - 1)
    ensures CoversAll(RangesAfter(rs, (offset, length), needless), served, offset + length - 1)
  {
    if needless {
      HoldsWholeIsCoverage(rs, offset, offset + length - 1);
    } else {
      AddSpanCovers(rs, offset, offset + length - 1);
    }
  }

  /** Reads the next reader to its end. */
  method Drain(next: HTTPRequestPartialReader, bufferSize: nat) returns (delivered: ByteString)
    requires next.Ready() && next.Valid() && next.resp == Some(0) && bufferSize > 0
    modifies next`resp, next`offset, next`placed
    modifies if next.cacheWriter == null then {} else {next.cacheWriter, next.cacheWriter.rawWriter, next.cacheWriter.ranges}
    ensures next.Valid() && next.resp == Some(|next.answer.body|)
    ensures delivered == next.answer.body
  {
    delivered := [];
    while true
      invariant next.Valid()
      invariant delivered == next.answer.body[..next.resp.value]
      decreases |next.answer.body| - next.resp.value
    {
      var r := next.ReadMore(bufferSize);
      if r == EndOfBody {
        break;
      }
      delivered := delivered + r.bytes;
    }
  }

  datatype Outcome = NotTaken | Complete | CutShort

  /** The length is known, the body is not complete, and enough of it is covered from start on. */
  ghost predicate Stitchable(stored: Stored, start: int)
    requires |stored.data| >= SIZE_META
  {
    && ToInt64(BodyLengthOf(stored.data)) > 0
    && !Whole(stored.ranges.ranges, stored.ranges.bodySize)
    && start >= 0
    && CoversAll(stored.ranges.ranges, start, start + WORTH_READING - 1)
  }

  /** The length is a positive int64, the ranges are not the one of a complete body, and 256 KiB are covered. */
  lemma StitchableMeans(stored: Stored, start: int)
    requires |stored.data| >= SIZE_META
    ensures Stitchable(stored, start) <==>
              && 0 < BodyLengthOf(stored.data) < 0x8000_0000_0000_0000
              && stored.ranges.ranges != [(0, stored.ranges.bodySize - 1)]
              && start >= 0 && CoversAll(stored.ranges.ranges, start, start + 262143)
  {
    KnownLength(stored.data);
    var rs := stored.ranges.ranges;
    assert |rs| == 1 ==> rs == [(rs[0].0, rs[0].1)];
  }

  /** The cached prefix of an open-ended request, when it is worth reading: everything up to, but without, its last byte. */
  method CachedPrefix(stored: Stored, start: int, bufferSize: nat, ghost origin: ByteString)
    returns (found: Option<nat>, delivered: ByteString)
    requires Kept(stored, origin) && bufferSize > 0
    ensures found.Some? <==> Stitchable(stored, start)
    ensures found.Some? ==>
              && 0 <= start < found.value < |origin|
              && LongestPrefix(stored.ranges.ranges, start, |origin|, found.value)
              && delivered == origin[start..found.value]
    ensures found.None? ==> delivered == []
  {
    var reader, usable := OpenPartialReader(stored);
    delivered := [];
    if reader.ranges.IsCompleted() || reader.file.bodySize <= 0 {
      return None, [];
    }
    var r2, findOk := reader.ranges.FindRangeAtPosition(start);
    if start >= 0 && CoversAll(stored.ranges.ranges, start, start + WORTH_READING - 1) {
      assert Covers(stored.ranges.ranges, start) && Covers(stored.ranges.ranges, start + 1);
    }
    if !findOk || r2.1 - r2.0 + 1 < WORTH_READING {
      return None, [];
    }
    AgreeSlice(stored.ranges.ranges, BaseOf(stored.data), stored.data, origin, start, r2.1);
    delivered := ReadCovered(reader, (start, r2.1 - 1), bufferSize, stored, origin);
    found := Some(r2.1);
  }

  method CloseBack(w: PartialFileWriter) returns (closed: Stored)
    requires w.Valid() && w.RecordKnown() && !w.isNew
    modifies w`published, w`record, w`recorded, w.rawWriter, w.ranges`bodySize
    ensures Faithful(closed, w.held) && closed.ranges.ranges == old(w.ranges.ranges)
  {
    closed := w.Close();
  }

  /** The next reader from its first read to its close: it delivers what the origin sends, and leaves a file that is true
      of `held`, the origin's body with those bytes laid over the placed positions, or none. */
  method RestFromOrigin(stored: Stored, ghost start: nat, boundary: nat, bufferSize: nat, origin: ByteString,
                        answer: Answer, storage: Storage, disk: DiskSpeed)
    returns (ok: bool, rest: ByteString, after: Option<Stored>, ghost held: ByteString, ghost placed: iset<int>)
    requires Kept(stored, origin) && bufferSize > 0
    requires start < boundary < |origin| && CoversAll(stored.ranges.ranges, start, boundary)
    ensures ok <==> answer.Rest? && !(stored.ranges.version >= 2 && answer.contentMD5 != stored.ranges.contentMD5)
    ensures rest == if ok then answer.body else []
    ensures after == None <==> !ok && answer.Rest? && !storage.NoStorage?
    ensures after.Some? && (!ok || !storage.Writable?) ==> after == Some(stored) && placed == iset{}
    ensures ok ==> Faithful(after.value, held) && Blend(held, origin, placed, boundary, answer.body)
    ensures ok ==> GrownBy(stored.ranges.ranges, after.value.ranges.ranges, placed, boundary, boundary + |answer.body|)
    ensures ok && storage.Writable? ==> CoversAll(after.value.ranges.ranges, start, boundary + |answer.body| - 1)
  {
    after, rest, held, placed := Some(stored), [], origin, iset{};
    var next := new HTTPRequestPartialReader(origin, answer, stored, boundary, storage, disk, start);
    ok := next.Start();
    if next.isRemoved {
      after := None;
    }
    if ok {
      rest := Drain(next, bufferSize);
      if next.cacheWriter != null {
        held, placed := next.cacheWriter.held, next.placed;
        var closed := CloseBack(next.cacheWriter);
        after := Some(closed);
      }
    }
  }

  /** The stitched stream is the cached prefix, from start up to the boundary, and then what the origin sends. It is the
      rest of the body, with no byte missing or repeated, exactly when the origin sends what it was asked for. What is
      written back leaves the file truthful exactly when the bytes that are placed are right, and at least those are
      placed that were not there before. */
  method ServeOpenEnded(stored: Stored, start: int, bufferSize: nat, origin: ByteString, answer: Answer, storage: Storage,
                        disk: DiskSpeed)
    returns (outcome: Outcome, delivered: ByteString, after: Option<Stored>, boundary: nat, ghost placed: iset<int>)
    requires Kept(stored, origin) && bufferSize > 0
    ensures outcome != NotTaken <==> Stitchable(stored, start)
    ensures outcome != NotTaken <==>
              && 0 < BodyLengthOf(stored.data) < 0x8000_0000_0000_0000
              && stored.ranges.ranges != [(0, stored.ranges.bodySize - 1)]
              && start >= 0 && CoversAll(stored.ranges.ranges, start, start + 262143)
    ensures outcome == NotTaken ==> delivered == [] && after == Some(stored)
    ensures outcome != NotTaken ==>
              0 <= start < boundary < |origin| && LongestPrefix(stored.ranges.ranges, start, |origin|, boundary)
    ensures outcome == CutShort <==>
              && Stitchable(stored, start)
              && (answer.NoAnswer? || (stored.ranges.version >= 2 && answer.contentMD5 != stored.ranges.contentMD5))
    ensures outcome == CutShort ==>
              && delivered == origin[start..boundary]
              && after == if answer.NoAnswer? || storage.NoStorage? then Some(stored) else None
    ensures outcome == Complete ==>
              && delivered == origin[start..boundary] + answer.body
              && (delivered == origin[start..] <==> answer.body == origin[boundary..])
    ensures outcome == Complete && !storage.Writable? ==> after == Some(stored)
    ensures outcome == Complete && storage.Writable? ==>
              && after.Some? && CoversAll(after.value.ranges.ranges, start, boundary + |answer.body| - 1)
              && GrownBy(stored.ranges.ranges, after.value.ranges.ranges, placed, boundary, boundary + |answer.body|)
              && (Faithful(after.value, origin) <==>
                    forall p :: p in placed ==> IsRightAt(p, origin, boundary, answer.body))
              && (IsRightAnswer(origin, boundary, answer.body) ==> Faithful(after.value, origin))
              && (Faithful(after.value, origin) ==> IsRightWhereNew(stored.ranges.ranges, origin, boundary, answer.body))
              && (answer.body == origin[boundary..] ==> Faithful(after.value, origin))
              && (boundary + |answer.body| > |origin| ==> !Faithful(after.value, origin))
  {
    StitchableMeans(stored, start);
    var found, prefix := CachedPrefix(stored, start, bufferSize, origin);
    if found.None? {
      return NotTaken, [], Some(stored), 0, iset{};
    }
    boundary := found.value;
    var ok, rest;
    ghost var held;
    ok, rest, after, held, placed := RestFromOrigin(stored, start, boundary, bufferSize, origin, answer, storage, disk);
    outcome := if ok then Complete else CutShort;
    delivered := prefix + rest;
    if ok {
      StreamIsRight(origin, start, boundary, answer.body);
      if storage == Writable {
        WrittenBackIsTrue(stored, after.value, held, origin, placed, start, boundary, answer.body);
      }
    }
  }

  /** An open-ended request after any sessions that were begun from nothing. An answer with another digest than that of the
      last session is not stitched on: the stream stops at the boundary, and the file is deleted if there is a storage. One
      with that digest is. */
  method SessionsThenServe(key: string, sessions: seq<Session>, start: int, bufferSize: nat, answer: Answer, storage: Storage,
                           disk: DiskSpeed)
    returns (outcome: Outcome, delivered: ByteString, after: Option<Stored>, ghost boundary: nat)
    requires AreToldApart(sessions) && bufferSize > 0
    requires forall k :: 0 <= k < |sessions| ==> Fits(sessions[k]) && |sessions[k].origin| < TWO_TO_THE_64
    ensures outcome != NotTaken ==> sessions != []
    ensures outcome != NotTaken ==>
      var last := sessions[|sessions| - 1];
      && 0 <= start < boundary < |last.origin|
      && (answer.Rest? && answer.contentMD5 != last.contentMD5 ==>
            && outcome == CutShort && delivered == last.origin[start..boundary]
            && (after.None? <==> storage != NoStorage))
      && (answer.Rest? && answer.contentMD5 == last.contentMD5 ==>
            outcome == Complete && delivered == last.origin[start..boundary] + answer.body && after.Some?)
      && (answer.NoAnswer? ==> outcome == CutShort && delivered == last.origin[start..boundary] && after.Some?)
  {
    boundary := 0;
    var stored := RunSessions(key, sessions, disk);
    if stored.None? {
      return NotTaken, [], None, 0;
    }
    ghost var placed;
    var at;
    outcome, delivered, after, at, placed :=
      ServeOpenEnded(stored.value, start, bufferSize, sessions[|sessions| - 1].origin, answer, storage, disk);
    boundary := at;
  }

  /** Ranges of version 0 or 1 have no digest to compare: every answer is stitched on. */
  method OldRangesAcceptAnyDigest(stored: Stored, start: int, bufferSize: nat, origin: ByteString, answer: Answer,
                                  storage: Storage, disk: DiskSpeed)
    returns (outcome: Outcome, delivered: ByteString)
    requires Kept(stored, origin) && bufferSize > 0 && stored.ranges.version in {0, 1}
    requires Stitchable(stored, start) && answer.Rest?
    ensures outcome == Complete && |answer.body| <= |delivered| && delivered[|delivered| - |answer.body|..] == answer.body
  {
    var after, boundary;
    ghost var placed;
    outcome, delivered, after, boundary, placed := ServeOpenEnded(stored, start, bufferSize, origin, answer, storage, disk);
  }

  /** All of the answer is right; it may be cut short. */
  ghost predicate IsRightAnswer(origin: ByteString, begin: nat, body: ByteString)
  {
    forall p :: begin <= p < begin + |body| ==> IsRightAt(p, origin, begin, body)
  }

  ghost predicate IsRightWhereNew(former: seq<Span>, origin: ByteString, begin: nat, body: ByteString)
  {
    forall p :: begin <= p < begin + |body| && !Covers(former, p) ==> IsRightAt(p, origin, begin, body)
  }

  lemma WrittenBackIsTrue(stored: Stored, after: Stored, held: ByteString, origin: ByteString, placed: iset<int>, start: nat,
                          begin: nat, body: ByteString)
    requires Faithful(after, held) && Blend(held, origin, placed, begin, body) && start < begin
    requires GrownBy(stored.ranges.ranges, after.ranges.ranges, placed, begin, begin + |body|)
    requires CoversAll(after.ranges.ranges, start, begin + |body| - 1)
    ensures Faithful(after, origin) <==> forall p :: p in placed ==> IsRightAt(p, origin, begin, body)
    ensures IsRightAnswer(origin, begin, body) ==> Faithful(after, origin)
    ensures Faithful(after, origin) ==> IsRightWhereNew(stored.ranges.ranges, origin, begin, body)
    ensures begin <= |origin| && body == origin[begin..] ==> Faithful(after, origin)
    ensures |origin| >= begin && begin + |body| > |origin| ==> !Faithful(after, origin)
  {
    TrueIffPlacedRight(after, held, origin, placed, begin, body);
    forall p | begin <= p < begin + |body| && !Covers(stored.ranges.ranges, p) ensures p in placed {
      assert Covers(after.ranges.ranges, p);
    }
    if |origin| >= begin && begin + |body| > |origin| {
      assert Covers(after.ranges.ranges, |origin|);
    }
  }

  lemma StreamIsRight(origin: ByteString, start: nat, boundary: nat, body: ByteString)
    requires start < boundary < |origin|
    ensures origin[start..boundary] + body == origin[start..] <==> body == origin[boundary..]
  {
    var s := origin[start..boundary] + body;
    assert origin[start..] == origin[start..boundary] + origin[boundary..];
    assert s[boundary - start..] == body;
    assert origin[start..][boundary - start..] == origin[boundary..];
  }
}
